/** Branch names said letter by letter: what a slug's words are, and the names and numbers as they are written. */
module BranchNamesExactly {
  import opened Wrappers
  import opened Texts
  import opened BranchNames

  // ----- the words of a text

  /** An ASCII letter or digit. */
  predicate IsKept(c: char) {
    'A' <= c <= 'Z' || 'a' <= c <= 'z' || '0' <= c <= '9'
  }

  /** The text without what is neither letter nor digit, each capital moved to its small letter. */
  function Kept(s: string): string {
    if s == "" then ""
    else
      var c := s[|s| - 1];
      Kept(s[..|s| - 1]) +
      if 'A' <= c <= 'Z' then [(c as int + 32) as char] else if IsKept(c) then [c] else ""
  }

  function Concat(ws: seq<string>): string {
    if ws == [] then "" else Concat(ws[..|ws| - 1]) + ws[|ws| - 1]
  }

  lemma LowerIs(c: char)
    ensures IsWordChar(c) <==> IsKept(c)
    ensures IsKept(c) ==> Lower(c) == if 'A' <= c <= 'Z' then (c as int + 32) as char else c
  {
  }

  lemma ConcatOneMore(ws: seq<string>, w: string)
    ensures Concat(ws + [w]) == Concat(ws) + w
  {
    assert (ws + [w])[..|ws|] == ws;
  }

  lemma ConcatExtended(ws: seq<string>, c: char)
    requires ws != []
    ensures Concat(ws[..|ws| - 1] + [ws[|ws| - 1] + [c]]) == Concat(ws) + [c]
  {
    ConcatOneMore(ws[..|ws| - 1], ws[|ws| - 1] + [c]);
    Regroup(Concat(ws[..|ws| - 1]), ws[|ws| - 1], [c]);
  }

  /** Put together, the words are the text's letters and digits, in small letters. */
  lemma {:induction false} WordsAreWhatIsKept(s: string)
    ensures Concat(Words(s)) == Kept(s)
  {
    if s != "" {
      var init, c := s[..|s| - 1], s[|s| - 1];
      WordsAreWhatIsKept(init);
      LowerIs(c);
      if IsKept(c) {
        if EndsInWord(init) {
          ConcatExtended(Words(init), Lower(c));
        } else {
          ConcatOneMore(Words(init), [Lower(c)]);
        }
      } else {
        assert Kept(s) == Kept(init) + "" == Kept(init);
      }
    }
  }

  /** How many letters the first `w` words have. */
  function WordEnd(ws: seq<string>, w: nat): nat
    requires w <= |ws|
  {
    |Concat(ws[..w])|
  }

  /** Of the words put together, the letters at `p` and `q` are of one word. */
  ghost predicate IsInOneWord(ws: seq<string>, p: nat, q: nat) {
    exists w: nat :: w < |ws| && WordEnd(ws, w) <= p && q < WordEnd(ws, w + 1)
  }

  ghost predicate AllKept(s: string, i: nat, j: nat) {
    forall m | i <= m <= j && m < |s| :: IsKept(s[m])
  }

  lemma {:induction false} WordEndsRise(ws: seq<string>, v: nat, w: nat)
    requires v <= w <= |ws|
    ensures WordEnd(ws, v) <= WordEnd(ws, w)
  {
    if v < w {
      assert ws[..w][..w - 1] == ws[..w - 1];
      WordEndsRise(ws, v, w - 1);
    }
  }

  lemma WordEndsExtended(ws: seq<string>, c: char, w: nat)
    requires ws != [] && w <= |ws|
    ensures var more := ws[..|ws| - 1] + [ws[|ws| - 1] + [c]];
            WordEnd(more, w) == if w < |ws| then WordEnd(ws, w) else WordEnd(ws, w) + 1
  {
    var more := ws[..|ws| - 1] + [ws[|ws| - 1] + [c]];
    if w < |ws| {
      assert more[..w] == ws[..w];
    } else {
      ConcatExtended(ws, c);
      assert more[..w] == more && ws[..w] == ws;
    }
  }

  lemma WordEndsOpened(ws: seq<string>, c: char, w: nat)
    requires w <= |ws| + 1
    ensures WordEnd(ws + [[c]], w) == if w <= |ws| then WordEnd(ws, w) else WordEnd(ws, |ws|) + 1
  {
    var more := ws + [[c]];
    if w <= |ws| {
      assert more[..w] == ws[..w];
    } else {
      ConcatOneMore(ws, [c]);
      assert more[..w] == more && ws[..|ws|] == ws;
    }
  }

  /** A letter more on the last word. */
  lemma InOneWordExtended(ws: seq<string>, c: char, p: nat, q: nat)
    requires ws != [] && p <= q <= WordEnd(ws, |ws|)
    ensures var more := ws[..|ws| - 1] + [ws[|ws| - 1] + [c]];
            IsInOneWord(more, p, q) <==>
            if q < WordEnd(ws, |ws|) then IsInOneWord(ws, p, q) else WordEnd(ws, |ws| - 1) <= p
  {
    hide WordEnd;
    var more := ws[..|ws| - 1] + [ws[|ws| - 1] + [c]];
    forall w: nat | w <= |ws|
      ensures WordEnd(more, w) == if w < |ws| then WordEnd(ws, w) else WordEnd(ws, w) + 1
      ensures WordEnd(ws, w) <= WordEnd(ws, |ws|)
    {
      WordEndsExtended(ws, c, w);
      WordEndsRise(ws, w, |ws|);
    }
    if w: nat :| w < |ws| && WordEnd(ws, w) <= p && q < WordEnd(ws, w + 1) {
      assert WordEnd(more, w) <= p && q < WordEnd(more, w + 1);
    }
    if w: nat :| w < |more| && WordEnd(more, w) <= p && q < WordEnd(more, w + 1) {
      assert w < |ws| - 1 ==> WordEnd(ws, w) <= p && q < WordEnd(ws, w + 1);
    }
    assert WordEnd(more, |ws| - 1) == WordEnd(ws, |ws| - 1) && WordEnd(more, |ws| - 1 + 1) == WordEnd(ws, |ws|) + 1;
  }

  /** A word of one letter more. */
  lemma InOneWordOpened(ws: seq<string>, c: char, p: nat, q: nat)
    requires p <= q <= WordEnd(ws, |ws|)
    ensures IsInOneWord(ws + [[c]], p, q) <==>
            if q < WordEnd(ws, |ws|) then IsInOneWord(ws, p, q) else p == q
  {
    hide WordEnd;
    var more := ws + [[c]];
    forall w: nat | w <= |ws| + 1
      ensures WordEnd(more, w) == if w <= |ws| then WordEnd(ws, w) else WordEnd(ws, |ws|) + 1
      ensures w <= |ws| ==> WordEnd(ws, w) <= WordEnd(ws, |ws|)
    {
      WordEndsOpened(ws, c, w);
      if w <= |ws| { WordEndsRise(ws, w, |ws|); }
    }
    if w: nat :| w < |ws| && WordEnd(ws, w) <= p && q < WordEnd(ws, w + 1) {
      assert WordEnd(more, w) <= p && q < WordEnd(more, w + 1);
    }
    if w: nat :| w < |more| && WordEnd(more, w) <= p && q < WordEnd(more, w + 1) {
      assert w < |ws| ==> WordEnd(ws, w) <= p && q < WordEnd(ws, w + 1);
    }
    assert WordEnd(more, |ws|) == WordEnd(ws, |ws|) && WordEnd(more, |ws| + 1) == WordEnd(ws, |ws|) + 1;
  }

  lemma WordEndIs(s: string)
    ensures WordEnd(Words(s), |Words(s)|) == |Kept(s)|
  {
    WordsAreWhatIsKept(s);
    assert Words(s)[..|Words(s)|] == Words(s);
  }

  lemma {:induction false} KeptRises(s: string, i: nat, j: nat)
    requires i <= j <= |s|
    ensures |Kept(s[..i])| <= |Kept(s[..j])|
    ensures i < j && IsKept(s[i]) ==> |Kept(s[..i])| < |Kept(s[..j])|
  {
    if i < j {
      assert s[..j][..j - 1] == s[..j - 1];
      KeptRises(s, i, j - 1);
    }
  }

  lemma KeptOneMore(init: string, c: char)
    ensures |Kept(init + [c])| == |Kept(init)| + if IsKept(c) then 1 else 0
  {
    assert (init + [c])[..|init|] == init;
  }

  lemma LastWordHasLetters(ws: seq<string>)
    requires AreWords(ws) && ws != []
    ensures WordEnd(ws, |ws| - 1) < WordEnd(ws, |ws|)
  {
    assert ws[..|ws|] == ws && IsWord(ws[|ws| - 1]);
  }

  lemma InLastWord(ws: seq<string>, p: nat)
    requires AreWords(ws) && ws != [] && p < WordEnd(ws, |ws|)
    ensures IsInOneWord(ws, p, WordEnd(ws, |ws|) - 1) <==> WordEnd(ws, |ws| - 1) <= p
  {
    hide WordEnd;
    LastWordHasLetters(ws);
    forall v: nat | v < |ws| ensures WordEnd(ws, v) <= WordEnd(ws, |ws| - 1) {
      WordEndsRise(ws, v, |ws| - 1);
    }
    var last: nat := |ws| - 1;
    assert WordEnd(ws, last + 1) == WordEnd(ws, |ws|);
    if w: nat :| w < |ws| && WordEnd(ws, w) <= p && WordEnd(ws, |ws|) - 1 < WordEnd(ws, w + 1) {
      assert w == last;
    }
  }

  lemma AllKeptOneMore(init: string, c: char, i: nat)
    requires i <= |init| && IsKept(c)
    ensures AllKept(init + [c], i, |init|) <==> i == |init| || AllKept(init, i, |init| - 1)
  {
    hide IsKept;
    var s := init + [c];
    assert s[|init|] == c && forall m | 0 <= m < |init| :: s[m] == init[m];
  }

  /** The last letter of a text, with another of it. */
  lemma InOneWordWithLast(init: string, c: char, i: nat)
    requires i <= |init| && IsKept(c) && (i < |init| ==> IsKept(init[i]))
    requires i < |init| && IsKept(init[|init| - 1]) ==>
               (IsInOneWord(Words(init), |Kept(init[..i])|, |Kept(init[..|init| - 1])|) <==> AllKept(init, i, |init| - 1))
    ensures IsInOneWord(Words(init + [c]), |Kept(init[..i])|, |Kept(init)|) <==> AllKept(init + [c], i, |init|)
  {
    hide Kept, Words, IsInOneWord, WordEnd;
    var ws, p, q := Words(init), |Kept(init[..i])|, |Kept(init)|;
    LowerIs(c);
    WordsOneMore(init, c);
    WordEndIs(init);
    KeptRises(init, i, |init|);
    AllKeptOneMore(init, c, i);
    assert init[..|init|] == init;
    if EndsInWord(init) {
      LowerIs(init[|init| - 1]);
      InOneWordExtended(ws, Lower(c), p, q);
      if i < |init| {
        KeptOneMore(init[..|init| - 1], init[|init| - 1]);
        assert init[..|init| - 1] + [init[|init| - 1]] == init;
        InLastWord(ws, p);
      } else {
        LastWordHasLetters(ws);
      }
    } else {
      InOneWordOpened(ws, Lower(c), p, q);
      if i < |init| {
        LowerIs(init[|init| - 1]);
      }
    }
  }

  /** A letter more changes nothing between earlier ones. */
  lemma InOneWordBefore(init: string, c: char, p: nat, q: nat)
    requires p <= q < |Kept(init)|
    ensures IsInOneWord(Words(init + [c]), p, q) <==> IsInOneWord(Words(init), p, q)
  {
    hide Kept, Words, IsInOneWord, WordEnd;
    WordsOneMore(init, c);
    WordEndIs(init);
    if IsWordChar(c) {
      if EndsInWord(init) {
        InOneWordExtended(Words(init), Lower(c), p, q);
      } else {
        InOneWordOpened(Words(init), Lower(c), p, q);
      }
    }
  }

  /** Two letters are of one word exactly when everything between them is a letter or a digit. */
  lemma {:induction false} WordsAreRuns(s: string, i: nat, j: nat)
    requires i <= j < |s| && IsKept(s[i]) && IsKept(s[j])
    ensures IsInOneWord(Words(s), |Kept(s[..i])|, |Kept(s[..j])|) <==> AllKept(s, i, j)
    decreases |s|
  {
    hide Kept, Words, IsInOneWord;
    var init, c := s[..|s| - 1], s[|s| - 1];
    assert s == init + [c] && s[..i] == init[..i] && s[..j] == init[..j];
    if j < |init| {
      WordsAreRuns(init, i, j);
      KeptRises(init, i, j);
      KeptRises(init, j, |init|);
      assert init[..|init|] == init;
      InOneWordBefore(init, c, |Kept(s[..i])|, |Kept(s[..j])|);
    } else {
      if i < |init| && IsKept(init[|init| - 1]) {
        WordsAreRuns(init, i, |init| - 1);
      }
      assert init[..|init|] == init;
      InOneWordWithLast(init, c, i);
    }
  }

  // ----- the slug

  /** A slug is `change` when no letter or digit is given, the first 40 letters of a first word longer than that, and
      else the words up to some word, with a `-` between two, that are 40 letters long at most, the next word not fitting. */
  lemma SlugExactly(ws: seq<string>, slug: string)
    requires AreWords(ws)
    ensures IsSlugOf(ws, slug) <==>
            if ws == [] then slug == "change"
            else if |ws[0]| > 40 then slug == ws[0][..40]
            else exists k: nat :: 0 < k <= |ws| && slug == Join(ws[..k], '-') && |slug| <= 40
                                  && (k < |ws| ==> |slug| + 1 + |ws[k]| > 40)
  {
    forall k: nat | 0 < k < |ws| ensures |Join(ws[..k + 1], '-')| == |Join(ws[..k], '-')| + 1 + |ws[k]| {
      JoinOneMore(ws[..k], ws[k], '-');
      assert ws[..k] + [ws[k]] == ws[..k + 1];
    }
    forall k: nat, m: nat | 0 < k <= m <= |ws| ensures |Join(ws[..k], '-')| <= |Join(ws[..m], '-')| {
      JoinsGrow(ws, k, m);
    }
    if k: nat :| FitsBest(ws, k) && slug == Join(ws[..k], '-') {
      assert k < |ws| ==> |Join(ws[..k + 1], '-')| > 40;
    }
    if ws != [] && |ws[0]| <= 40 {
      if k: nat :| 0 < k <= |ws| && slug == Join(ws[..k], '-') && |slug| <= 40 && (k < |ws| ==> |slug| + 1 + |ws[k]| > 40) {
        forall m | k < m <= |ws| ensures |Join(ws[..m], '-')| > SLUG_MAX {
          assert |Join(ws[..k + 1], '-')| <= |Join(ws[..m], '-')|;
        }
        assert FitsBest(ws, k);
      }
    }
  }

  lemma {:induction false} JoinsGrow(ws: seq<string>, k: nat, m: nat)
    requires 0 < k <= m <= |ws|
    ensures |Join(ws[..k], '-')| <= |Join(ws[..m], '-')|
  {
    if k < m {
      JoinsGrow(ws, k, m - 1);
      JoinOneMore(ws[..m - 1], ws[m - 1], '-');
      assert ws[..m - 1] + [ws[m - 1]] == ws[..m];
    }
  }

  // ----- the names tried

  /** The names tried, as they are written: the kind and the slug, then that with `-2`, `-3` and so on. */
  lemma CandidatesExactly(slug: string, n: nat)
    ensures Candidate(Prefix(Feat) + "/" + slug, n) == if n == 1 then "feat/" + slug else "feat/" + slug + "-" + Decimal(n)
    ensures Candidate(Prefix(Fix) + "/" + slug, n) == if n == 1 then "fix/" + slug else "fix/" + slug + "-" + Decimal(n)
    ensures Candidate(Prefix(Docs) + "/" + slug, n) == if n == 1 then "docs/" + slug else "docs/" + slug + "-" + Decimal(n)
  {
    forall kind: ChangeType
      ensures Candidate(Prefix(kind) + "/" + slug, n) ==
              if n == 1 then Prefix(kind) + "/" + slug else Prefix(kind) + "/" + slug + "-" + Decimal(n)
    {
      Regroup(Prefix(kind) + "/" + slug, "-", Decimal(n));
    }
    hide Candidate;
    assert "feat" + "/" == "feat/" && "fix" + "/" == "fix/" && "docs" + "/" == "docs/";
  }

  /** A name is held by an entry that is it, or that goes on after it with a `/`. */
  lemma HeldExactly(name: string, taken: seq<string>)
    ensures IsHeld(name, taken) <==>
            exists entry | entry in taken ::
              entry == name || (|entry| > |name| && entry[..|name|] == name && entry[|name|] == '/')
  {
    forall entry: string
      ensures Holds(entry, name) <==>
              entry == name || (|entry| > |name| && entry[..|name|] == name && entry[|name|] == '/')
    {
      if name + "/" <= entry {
        assert entry[|name|] == (name + "/")[|name|] && entry[..|name|] == (name + "/")[..|name|];
      }
    }
    hide Holds;
  }

  // ----- numbers

  function TenTo(n: nat): nat {
    if n == 0 then 1 else 10 * TenTo(n - 1)
  }

  /** A digit counts for what is past `0`. */
  lemma ValueOfDigit(c: char)
    requires '0' <= c <= '9'
    ensures AreDigits([c]) && Value([c]) == c as int - 48
  {
    assert [c][..0] == "";
  }

  lemma OnePlaceMore(x: nat, t: nat, y: nat, d: nat)
    ensures (x * t + y) * 10 + d == x * (10 * t) + (y * 10 + d)
  {
  }

  lemma ValueOneMore(s: string, c: char)
    requires AreDigits(s) && IsDigit(c)
    ensures AreDigits(s + [c]) && Value(s + [c]) == Value(s) * 10 + DigitValue(c)
  {
    assert (s + [c])[..|s|] == s;
  }

  /** What digits count for is ten times as much one place to the left. */
  lemma {:induction false} ValueByPlaces(a: string, b: string)
    requires AreDigits(a) && AreDigits(b)
    ensures AreDigits(a + b) && Value(a + b) == Value(a) * TenTo(|b|) + Value(b)
  {
    if b == "" {
      assert a + b == a;
    } else {
      var init, c := b[..|b| - 1], b[|b| - 1];
      ValueByPlaces(a, init);
      OnePlaceMore(Value(a), TenTo(|init|), Value(init), DigitValue(c));
      ValueOneMore(a + init, c);
      ValueOneMore(init, c);
      assert TenTo(|b|) == 10 * TenTo(|init|);
      hide Value, TenTo, DigitValue;
      assert init + [c] == b && (a + init) + [c] == a + b;
    }
  }

  /** A number is printed with no zero before it. */
  lemma {:induction false} NoZeroBefore(n: nat)
    ensures AreDigits(Decimal(n)) && Value(Decimal(n)) == n && (n > 0 ==> Decimal(n)[0] != '0') && (n == 0 ==> Decimal(n) == "0")
  {
    ValueOfDecimal(n);
    if n >= 10 {
      NoZeroBefore(n / 10);
    }
  }

  // ----- the old names

  /** An old branch is named by the id, after `docs/` when the contract changes no code, `fix/` when it is a repair, and
      `feature/` otherwise. */
  lemma OldBranchExactly(contract: Contract)
    ensures !contract.changesCode ==> OldTaskBranch(contract) == "docs/" + contract.id
    ensures contract.changesCode && contract.change == Some(Repair) ==> OldTaskBranch(contract) == "fix/" + contract.id
    ensures contract.changesCode && contract.change == Some(Feature) ==> OldTaskBranch(contract) == "feature/" + contract.id
    ensures contract.changesCode && contract.change == None ==> OldTaskBranch(contract) == "feature/" + contract.id
  {
  }

  ghost predicate IsOldWritten(name: string, kind: string, digits: string) {
    && (kind == "feature" || kind == "fix" || kind == "docs")
    && 1 <= |digits| <= 6 && AreDigits(digits)
    && (name == kind + "/" + ("CTV-" + digits) ||
        exists remote :: Lacks(remote, '/') && name == remote + "/" + kind + "/" + ("CTV-" + digits))
  }

  lemma TaskIdIs(digits: string)
    requires 1 <= |digits| <= 6 && AreDigits(digits)
    ensures IsTaskId("CTV-" + digits) && TaskNumber("CTV-" + digits) == Value(digits)
  {
    var id := "CTV-" + digits;
    assert id[..4] == "CTV-" && id[4..] == digits;
  }

  /** A name answers a number exactly when it is one of the three kinds and `CTV-` with one to six digits of that value,
      alone or behind one segment. */
  lemma OldNumberExactly(name: string, n: nat)
    ensures TaskNumberOfBranch(name) == Some(n) <==> exists kind, digits :: IsOldWritten(name, kind, digits) && Value(digits) == n
  {
    TaskNumberExactly(name, n);
    hide TaskNumberOfBranch, Value;
    if kind, id :| IsOldKind(kind) && IsTaskId(id) && TaskNumber(id) == n && IsOldName(name, kind, id) {
      assert id == "CTV-" + id[4..];
      assert IsOldWritten(name, kind, id[4..]);
    }
    if kind, digits :| IsOldWritten(name, kind, digits) && Value(digits) == n {
      TaskIdIs(digits);
      assert IsOldName(name, kind, "CTV-" + digits);
    }
  }
}
