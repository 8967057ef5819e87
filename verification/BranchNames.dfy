/** The names of a task's branch: slugs, free names, and the shapes before ADR 0066. */
module BranchNames {
  import opened Wrappers
  import opened Texts

  const SLUG_MAX := 40

  // ----- words

  function Lower(c: char): char {
    if 'A' <= c <= 'Z' then c - 'A' + 'a' else c
  }

  predicate IsSlugChar(c: char) {
    'a' <= c <= 'z' || IsDigit(c)
  }

  predicate IsWordChar(c: char) {
    IsSlugChar(Lower(c))
  }

  /** A non-empty run of lower-case ASCII letters and digits. */
  ghost predicate IsWord(w: string) {
    w != "" && forall i | 0 <= i < |w| :: IsSlugChar(w[i])
  }

  ghost predicate AreWords(ws: seq<string>) {
    forall i | 0 <= i < |ws| :: IsWord(ws[i])
  }

  ghost predicate EndsInWord(s: string) {
    s != "" && IsWordChar(s[|s| - 1])
  }

  /** The maximal runs of ASCII letters and digits in `s`, lower-cased. */
  ghost function Words(s: string): (ws: seq<string>)
    ensures AreWords(ws)
    ensures EndsInWord(s) ==> ws != []
  {
    if s == "" then []
    else
      var init, c := s[..|s| - 1], s[|s| - 1];
      var ws := Words(init);
      if !IsWordChar(c) then ws
      else if EndsInWord(init) then ws[..|ws| - 1] + [ws[|ws| - 1] + [Lower(c)]]
      else ws + [[Lower(c)]]
  }

  lemma WordsOfPrefix(ws: seq<string>, k: nat)
    requires AreWords(ws) && k <= |ws|
    ensures AreWords(ws[..k])
  {
  }

  lemma WordsLackDashes(ws: seq<string>)
    requires AreWords(ws)
    ensures AllLack(ws, '-')
  {
  }

  lemma {:induction false} JoinedEnds(ws: seq<string>)
    requires AreWords(ws) && ws != []
    ensures var j := Join(ws, '-'); j != "" && IsSlugChar(j[0]) && IsSlugChar(j[|j| - 1])
  {
    assert IsWord(ws[|ws| - 1]);
    if |ws| > 1 {
      JoinedEnds(ws[..|ws| - 1]);
    }
  }

  lemma {:induction false} WordsOfWord(s: string, w: string)
    requires !EndsInWord(s) && IsWord(w)
    ensures Words(s + w) == Words(s) + [w]
  {
    var init, c := w[..|w| - 1], w[|w| - 1];
    assert (s + w)[..|s + w| - 1] == s + init;
    assert Lower(c) == c;
    if init == "" {
      assert s + init == s;
      assert w == [c];
    } else {
      WordsOfWord(s, init);
      assert (s + init)[|s + init| - 1] == init[|init| - 1];
      assert EndsInWord(s + init);
      assert init + [c] == w;
    }
  }

  lemma WordsAfterDash(j: string, w: string)
    requires IsWord(w)
    ensures Words(j + "-" + w) == Words(j) + [w]
  {
    var head := j + "-";
    assert head[..|j|] == j;
    assert Words(head) == Words(j) && !EndsInWord(head);
    WordsOfWord(head, w);
  }

  /** The words of joined words are those words. */
  lemma {:induction false} WordsOfJoined(ws: seq<string>)
    requires AreWords(ws)
    ensures Words(Join(ws, '-')) == ws
  {
    hide Words;
    if ws != [] {
      var init, w := ws[..|ws| - 1], ws[|ws| - 1];
      assert IsWord(w);
      WordsOfJoined(init);
      if init == [] {
        assert "" + w == w;
        WordsOfWord("", w);
        assert Join([], '-') == "";
      } else {
        WordsAfterDash(Join(init, '-'), w);
      }
      assert init + [w] == ws;
    } else {
      NoWordsJoinNothing();
    }
  }

  // ----- the slug

  /** The longest prefix of the words that fits, joined; the first 40 characters of a first word
      that does not; `change` when there is no word. */
  ghost predicate IsSlugOf(ws: seq<string>, slug: string) {
    if ws == [] then slug == "change"
    else if |ws[0]| > SLUG_MAX then slug == ws[0][..SLUG_MAX]
    else exists k: nat :: FitsBest(ws, k) && slug == Join(ws[..k], '-')
  }

  /** The first `k` words fit, and no more of them do. */
  ghost predicate FitsBest(ws: seq<string>, k: nat) {
    && 0 < k <= |ws| && |Join(ws[..k], '-')| <= SLUG_MAX
    && forall m | k < m <= |ws| :: |Join(ws[..m], '-')| > SLUG_MAX
  }

  lemma SlugIsOne(ws: seq<string>, a: string, b: string)
    requires IsSlugOf(ws, a) && IsSlugOf(ws, b)
    ensures a == b
  {
    if ws != [] && |ws[0]| <= SLUG_MAX {
      var k: nat :| FitsBest(ws, k) && a == Join(ws[..k], '-');
      var m: nat :| FitsBest(ws, m) && b == Join(ws[..m], '-');
    }
  }

  /** What the first loop of the slug makes. */
  ghost function Dashed(s: string): string {
    if s == "" then ""
    else
      var slug, c := Dashed(s[..|s| - 1]), s[|s| - 1];
      if IsWordChar(c) then slug + [Lower(c)]
      else if slug != "" && slug[|slug| - 1] == '-' then slug
      else slug + "-"
  }

  ghost function Lead(s: string): string {
    if s != "" && !IsWordChar(s[0]) then "-" else ""
  }

  ghost function Trail(s: string): string {
    if Words(s) != [] && !EndsInWord(s) then "-" else ""
  }

  lemma WordsOneMore(s: string, c: char)
    ensures Words(s + [c]) ==
            if !IsWordChar(c) then Words(s)
            else if EndsInWord(s) then Words(s)[..|Words(s)| - 1] + [Words(s)[|Words(s)| - 1] + [Lower(c)]]
            else Words(s) + [[Lower(c)]]
  {
    assert (s + [c])[..|s|] == s;
  }

  lemma DashedOneMore(s: string, c: char)
    ensures Dashed(s + [c]) ==
            if IsWordChar(c) then Dashed(s) + [Lower(c)]
            else if Dashed(s) != "" && Dashed(s)[|Dashed(s)| - 1] == '-' then Dashed(s)
            else Dashed(s) + "-"
  {
    assert (s + [c])[..|s|] == s;
  }

  ghost predicate IsDashed(s: string) {
    Dashed(s) == Lead(s) + Join(Words(s), '-') + Trail(s)
  }

  lemma DashedAfterWordChar(s: string, c: char)
    requires IsDashed(s) && IsWordChar(c)
    ensures IsDashed(s + [c])
  {
    hide Words, Dashed, Join;
    var ws := Words(s);
    WordsOneMore(s, c);
    DashedOneMore(s, c);
    assert s != "" ==> (s + [c])[0] == s[0];
    var lead, j := Lead(s), Join(ws, '-');
    if EndsInWord(s) {
      ExtendLast(ws, Lower(c));
      assert lead + j + "" + [Lower(c)] == lead + (j + [Lower(c)]) + "";
    } else if ws != [] {
      JoinLast(ws, [Lower(c)], '-');
      assert lead + j + "-" + [Lower(c)] == lead + (j + ['-'] + [Lower(c)]) + "";
    } else {
      JoinLast(ws, [Lower(c)], '-');
      NoWordsJoinNothing();
      if s != "" {
        NoWordsNoWordChars(s, 0);
      }
      assert lead + "" + "" + [Lower(c)] == lead + [Lower(c)] + "";
    }
  }

  lemma NoWordsJoinNothing()
    ensures Join([], '-') == "" && Words("") == [] && Dashed("") == ""
  {
  }

  lemma DashedAfterOther(s: string, c: char)
    requires IsDashed(s) && !IsWordChar(c)
    ensures IsDashed(s + [c])
  {
    hide Join;
    var ws := Words(s);
    WordsOneMore(s, c);
    DashedOneMore(s, c);
    if ws != [] {
      JoinedEnds(ws);
    } else if s != "" {
      NoWordsNoWordChars(s, 0);
    }
    assert s != "" ==> (s + [c])[0] == s[0];
  }

  lemma {:induction false} DashedIs(s: string)
    ensures IsDashed(s)
  {
    if s != "" {
      var init, c := s[..|s| - 1], s[|s| - 1];
      DashedIs(init);
      if IsWordChar(c) { DashedAfterWordChar(init, c); } else { DashedAfterOther(init, c); }
      assert init + [c] == s;
    }
  }

  lemma ExtendLast(ws: seq<string>, c: char)
    requires ws != []
    ensures Join(ws[..|ws| - 1] + [ws[|ws| - 1] + [c]], '-') == Join(ws, '-') + [c]
  {
    hide Join;
    JoinExtended(ws[..|ws| - 1], ws[|ws| - 1], c, '-');
    assert ws[..|ws| - 1] + [ws[|ws| - 1]] == ws;
  }

  lemma {:induction false} NoWordsNoWordChars(s: string, i: nat)
    requires Words(s) == [] && i < |s|
    ensures !IsWordChar(s[i])
  {
    if i < |s| - 1 {
      NoWordsNoWordChars(s[..|s| - 1], i);
    }
  }

  function TrimLeft(s: string): string {
    if s != "" && s[0] == '-' then TrimLeft(s[1..]) else s
  }

  function TrimRight(s: string): string {
    if s != "" && s[|s| - 1] == '-' then TrimRight(s[..|s| - 1]) else s
  }

  /** `trim_matches('-')`. */
  function Trim(s: string): string {
    TrimRight(TrimLeft(s))
  }

  lemma TrimNothing(s: string)
    requires s != "" ==> s[0] != '-' && s[|s| - 1] != '-'
    ensures Trim(s) == s
  {
  }

  lemma TrimDashed(s: string)
    ensures Trim(Dashed(s)) == Join(Words(s), '-')
  {
    var ws := Words(s);
    DashedIs(s);
    if ws == [] {
      assert "-"[1..] == "";
    } else {
      JoinedEnds(ws);
      TrimAround(Lead(s), Join(ws, '-'), Trail(s));
    }
  }

  lemma TrimAround(lead: string, j: string, trail: string)
    requires (lead == "" || lead == "-") && (trail == "" || trail == "-")
    requires j != "" && j[0] != '-' && j[|j| - 1] != '-'
    ensures Trim(lead + j + trail) == j
  {
    if lead == "-" {
      assert (lead + j + trail)[1..] == j + trail;
      assert TrimLeft(lead + j + trail) == TrimLeft(j + trail) == j + trail;
    } else {
      assert lead + j + trail == j + trail;
      assert TrimLeft(j + trail) == j + trail;
    }
    if trail == "-" {
      assert (j + trail)[..|j|] == j;
      assert TrimRight(j + trail) == TrimRight(j) == j;
    } else {
      assert j + trail == j;
      assert TrimRight(j) == j;
    }
  }

  /** `rfind('-')`. */
  function LastDash(s: string): (at: Option<nat>)
    ensures at.None? ==> Lacks(s, '-')
    ensures at.Some? ==> at.value < |s| && s[at.value] == '-' && Lacks(s[at.value + 1..], '-')
  {
    if s == "" then None
    else if s[|s| - 1] == '-' then Some(|s| - 1)
    else
      var at := LastDash(s[..|s| - 1]);
      assert at.Some? ==> s[at.value + 1..] == s[..|s| - 1][at.value + 1..] + [s[|s| - 1]];
      at
  }

  lemma FirstWordStarts(ws: seq<string>)
    requires AreWords(ws) && ws != []
    ensures ws[0] <= Join(ws, '-')
    ensures |ws| > 1 ==> |ws[0]| < |Join(ws, '-')| && Join(ws, '-')[|ws[0]|] == '-'
  {
    if |ws| > 1 {
      JoinInTwo(ws, 1, '-');
      assert ws[..1] == [ws[0]];
    }
  }

  /** Cutting a long joined text at the last `-` of its first 41 characters keeps the words that fit. */
  lemma CutIsSlug(ws: seq<string>, cut: nat)
    requires AreWords(ws) && |Join(ws, '-')| > SLUG_MAX
    requires var window := Join(ws, '-')[..SLUG_MAX + 1];
             cut == (if LastDash(window).Some? then LastDash(window).value else SLUG_MAX)
    ensures IsSlugOf(ws, Join(ws, '-')[..cut])
  {
    var j := Join(ws, '-');
    var window := j[..SLUG_MAX + 1];
    FirstWordStarts(ws);
    WordsLackDashes(ws);
    assert IsWord(ws[0]);
    if |ws[0]| > SLUG_MAX {
      assert forall i | 0 <= i < |window| :: window[i] == ws[0][i];
      assert LastDash(window).None?;
    } else {
      assert window[|ws[0]|] == '-';
      assert LastDash(window).Some?;
      assert j[cut] == '-';
      var k := SeparatorsAre(ws, '-', cut);
      JoinInTwo(ws, k, '-');
      assert j[..cut] == Join(ws[..k], '-');
      forall x | cut < x <= SLUG_MAX ensures j[x] != '-' {
        assert window[cut + 1..][x - cut - 1] == j[x];
      }
      forall m | k < m <= |ws| ensures |Join(ws[..m], '-')| > SLUG_MAX {
        LongerJoin(ws, k, m, '-');
        if m < |ws| {
          JoinInTwo(ws, m, '-');
          assert j[|Join(ws[..m], '-')|] == '-';
        } else {
          assert ws[..m] == ws;
        }
      }
      assert FitsBest(ws, k);
    }
  }

  lemma SlugEnds(ws: seq<string>, slug: string)
    requires AreWords(ws) && ws != [] && IsSlugOf(ws, slug)
    ensures slug != "" && slug[0] != '-' && slug[|slug| - 1] != '-'
  {
    assert IsWord(ws[0]);
    if |ws[0]| <= SLUG_MAX {
      var k: nat :| FitsBest(ws, k) && slug == Join(ws[..k], '-');
      JoinedEnds(ws[..k]);
    }
  }

  lemma ShortJoinIsSlug(ws: seq<string>)
    requires AreWords(ws) && ws != [] && |Join(ws, '-')| <= SLUG_MAX
    ensures IsSlugOf(ws, Join(ws, '-'))
  {
    FirstWordStarts(ws);
    assert ws[..|ws|] == ws;
    assert FitsBest(ws, |ws|);
  }

  /** The slug of `words`, as the source makes it, is the longest run of whole words that fits. */
  method BranchSlug(words: string) returns (slug: string)
    ensures IsSlugOf(Words(words), slug)
  {
    slug := "";
    for i := 0 to |words|
      invariant slug == Dashed(words[..i])
    {
      assert words[..i + 1][..i] == words[..i];
      var lower := Lower(words[i]);
      if IsSlugChar(lower) {
        slug := slug + [lower];
      } else if !(slug != "" && slug[|slug| - 1] == '-') {
        slug := slug + "-";
      }
    }
    assert words[..|words|] == words;
    TrimDashed(words);
    ghost var ws := Words(words);
    slug := Trim(slug);
    if ws != [] {
      JoinedEnds(ws);
    }
    if |slug| > SLUG_MAX {
      var window := slug[..SLUG_MAX + 1];
      var dash := LastDash(window);
      var cut := if dash.Some? then dash.value else SLUG_MAX;
      CutIsSlug(ws, cut);
      slug := slug[..cut];
      SlugEnds(ws, slug);
      TrimNothing(slug);
      slug := Trim(slug);
    } else if ws != [] {
      ShortJoinIsSlug(ws);
    }
    if slug == "" {
      slug := "change";
    }
  }

  /** A slug's form: at most 40 characters, lower-case letters, digits and single `-`s between them. */
  ghost predicate IsSlug(slug: string) {
    && 0 < |slug| <= SLUG_MAX
    && (forall i | 0 <= i < |slug| :: IsSlugChar(slug[i]) || slug[i] == '-')
    && slug[0] != '-' && slug[|slug| - 1] != '-'
    && forall i | 0 < i < |slug| :: slug[i - 1] != '-' || slug[i] != '-'
  }

  lemma {:induction false} JoinedIsSlug(ws: seq<string>)
    requires AreWords(ws) && ws != [] && |Join(ws, '-')| <= SLUG_MAX
    ensures IsSlug(Join(ws, '-'))
  {
    var init, w := ws[..|ws| - 1], ws[|ws| - 1];
    assert IsWord(w);
    if init != [] {
      JoinedIsSlug(init);
    }
  }

  lemma WordIsSlug(w: string)
    requires IsWord(w) && |w| <= SLUG_MAX
    ensures IsSlug(w) && Words(w) == [w] && IsSlugOf([w], w)
  {
    assert Join([w], '-') == w;
    WordsOfJoined([w]);
    ShortJoinIsSlug([w]);
  }

  lemma JoinedSlugIsItsOwn(ws: seq<string>)
    requires AreWords(ws) && ws != [] && |Join(ws, '-')| <= SLUG_MAX
    ensures IsSlug(Join(ws, '-')) && IsSlugOf(Words(Join(ws, '-')), Join(ws, '-'))
  {
    JoinedIsSlug(ws);
    WordsOfJoined(ws);
    ShortJoinIsSlug(ws);
  }

  /** Every slug has that form, and is its own slug. */
  lemma SlugsAreSlugs(words: string, slug: string)
    requires IsSlugOf(Words(words), slug)
    ensures IsSlug(slug)
    ensures IsSlugOf(Words(slug), slug)
    ensures forall again | IsSlugOf(Words(slug), again) :: again == slug
  {
    hide IsSlug, Words, Join;
    var ws := Words(words);
    if ws == [] {
      WordIsSlug("change");
    } else if |ws[0]| > SLUG_MAX {
      assert IsWord(ws[0]);
      WordIsSlug(slug);
    } else {
      var k: nat :| FitsBest(ws, k) && slug == Join(ws[..k], '-');
      WordsOfPrefix(ws, k);
      JoinedSlugIsItsOwn(ws[..k]);
    }
    forall again | IsSlugOf(Words(slug), again) ensures again == slug {
      SlugIsOne(Words(slug), again, slug);
    }
  }

  // ----- the free name

  datatype ChangeType = Feat | Fix | Docs

  function Prefix(kind: ChangeType): string {
    match kind
    case Feat => "feat"
    case Fix => "fix"
    case Docs => "docs"
  }

  /** An entry holds a name it equals, or a name it is below. */
  predicate Holds(entry: string, name: string) {
    entry == name || name + "/" <= entry
  }

  predicate IsHeld(name: string, taken: seq<string>) {
    exists i | 0 <= i < |taken| :: Holds(taken[i], name)
  }

  function Ending(n: nat): (e: string)
    ensures Lacks(e, '/')
  {
    if n == 1 then "" else "-" + Decimal(n)
  }

  /** The `n`th name tried: the first bare, then `-2`, `-3`, ... */
  function Candidate(first: string, n: nat): string {
    first + Ending(n)
  }

  lemma CandidatesDiffer(first: string, n: nat, m: nat)
    requires Candidate(first, n) == Candidate(first, m)
    ensures n == m
  {
    assert Ending(n) == Candidate(first, n)[|first|..] == Ending(m);
    if n != 1 && m != 1 {
      assert Decimal(n) == Ending(n)[1..] == Decimal(m);
      ValueOfDecimal(n);
      ValueOfDecimal(m);
    }
  }

  lemma HeldIsPrefix(entry: string, name: string)
    requires Holds(entry, name)
    ensures name <= entry && (|name| < |entry| ==> entry[|name|] == '/')
  {
    if entry != name {
      assert entry[|name|] == (name + "/")[|name|];
    }
  }

  lemma NoSlashAfterShorter(first: string, n: nat, m: nat)
    requires |Candidate(first, n)| < |Candidate(first, m)|
    ensures Candidate(first, m)[|Candidate(first, n)|] != '/'
  {
    assert Candidate(first, m)[|Candidate(first, n)|] == Ending(m)[|Candidate(first, n)| - |first|];
  }

  /** One entry holds at most one candidate. */
  lemma OneCandidateEach(entry: string, first: string, n: nat, m: nat)
    requires Holds(entry, Candidate(first, n)) && Holds(entry, Candidate(first, m))
    ensures n == m
  {
    var a, b := Candidate(first, n), Candidate(first, m);
    HeldIsPrefix(entry, a);
    HeldIsPrefix(entry, b);
    assert |a| >= |b| by {
      if |a| < |b| { NoSlashAfterShorter(first, n, m); }
    }
    assert |b| >= |a| by {
      if |b| < |a| { NoSlashAfterShorter(first, m, n); }
    }
    assert a == entry[..|a|] == b;
    CandidatesDiffer(first, n, m);
  }

  lemma {:induction false} DistinctFit(s: seq<nat>, n: nat)
    requires forall i | 0 <= i < |s| :: s[i] < n
    requires forall i, j | 0 <= i < j < |s| :: s[i] != s[j]
    ensures |s| <= n
  {
    if s == [] {
      return;
    }
    assert s[0] < n;
    if at :| 0 <= at < |s| && s[at] == n - 1 {
      var rest := s[..at] + s[at + 1..];
      DistinctFit(rest, n - 1);
    } else {
      DistinctFit(s, n - 1);
    }
  }

  /** `owners[k]` holds the candidate before `k + 2`. */
  ghost predicate OwnCandidates(owners: seq<nat>, first: string, taken: seq<string>) {
    forall k | 0 <= k < |owners| :: owners[k] < |taken| && Holds(taken[owners[k]], Candidate(first, k + 1))
  }

  lemma OwnersFit(owners: seq<nat>, first: string, taken: seq<string>)
    requires OwnCandidates(owners, first, taken)
    ensures |owners| <= |taken|
  {
    forall i, j | 0 <= i < j < |owners| ensures owners[i] != owners[j] {
      if owners[i] == owners[j] {
        OneCandidateEach(taken[owners[i]], first, i + 1, j + 1);
      }
    }
    DistinctFit(owners, |taken|);
  }

  lemma OneMoreOwner(owners: seq<nat>, first: string, taken: seq<string>, i: nat)
    requires OwnCandidates(owners, first, taken)
    requires i < |taken| && Holds(taken[i], Candidate(first, |owners| + 1))
    ensures OwnCandidates(owners + [i], first, taken) && |owners| + 1 <= |taken|
  {
    hide Holds, Candidate;
    var more := owners + [i];
    assert more[|owners|] == i && forall k | 0 <= k < |owners| :: more[k] == owners[k];
    OwnersFit(more, first, taken);
  }

  /** The first candidate no entry holds, found within one more try than there are entries. */
  method FreeBranch(kind: ChangeType, slug: string, taken: seq<string>) returns (name: string, ghost tries: nat)
    ensures 1 <= tries <= |taken| + 1
    ensures name == Candidate(Prefix(kind) + "/" + slug, tries) && !IsHeld(name, taken)
    ensures forall n | 1 <= n < tries :: IsHeld(Candidate(Prefix(kind) + "/" + slug, n), taken)
  {
    hide Holds, Decimal;
    var first := Prefix(kind) + "/" + slug;
    assert Candidate(first, 1) == first;
    tries := 1;
    if !IsHeld(first, taken) {
      return first, 1;
    }
    ghost var i: nat :| i < |taken| && Holds(taken[i], first);
    ghost var owners: seq<nat> := [];
    OneMoreOwner(owners, first, taken, i);
    owners := owners + [i];
    var n := 2;
    name := Candidate(first, n);
    while IsHeld(name, taken)
      invariant n >= 2 && name == Candidate(first, n)
      invariant |owners| == n - 1 <= |taken| && OwnCandidates(owners, first, taken)
      decreases |taken| + 2 - n
    {
      i :| i < |taken| && Holds(taken[i], name);
      OneMoreOwner(owners, first, taken, i);
      owners := owners + [i];
      n := n + 1;
      name := Candidate(first, n);
    }
    tries := n;
    forall m | 1 <= m < n ensures IsHeld(Candidate(first, m), taken) {
      assert Holds(taken[owners[m - 1]], Candidate(first, m));
    }
  }

  // ----- the old names

  datatype Change = Repair | Feature

  /** The part of a contract its old branch name is made from. */
  datatype Contract = Contract(id: string, changesCode: bool, change: Option<Change>)

  /** A task id: `CTV-` and one to six digits. */
  predicate IsTaskId(id: string) {
    |id| >= 4 && id[..4] == "CTV-" && 1 <= |id[4..]| <= 6 && AreDigits(id[4..])
  }

  function TaskNumber(id: string): nat
    requires IsTaskId(id)
  {
    Value(id[4..])
  }

  function OldTaskBranch(contract: Contract): string {
    if !contract.changesCode then "docs/" + contract.id
    else if contract.change == Some(Repair) then "fix/" + contract.id
    else "feature/" + contract.id
  }

  predicate IsOldKind(kind: string) {
    kind == "feature" || kind == "fix" || kind == "docs"
  }

  /** Reads a number back from an old branch name, one leading segment allowed. */
  function TaskNumberOfBranch(name: string): Option<nat> {
    var parts := Split(name, '/');
    if |parts| != 2 && |parts| != 3 then None
    else
      var kind, id := parts[|parts| - 2], parts[|parts| - 1];
      if IsOldKind(kind) && IsTaskId(id) then Some(TaskNumber(id)) else None
  }

  /** `name` is `<kind>/<id>`, or that behind one segment. */
  ghost predicate IsOldName(name: string, kind: string, id: string) {
    || name == kind + "/" + id
    || exists remote :: Lacks(remote, '/') && name == remote + "/" + kind + "/" + id
  }

  lemma TaskIdsLackSlashes(id: string)
    requires IsTaskId(id)
    ensures Lacks(id, '/')
  {
    forall i | 0 <= i < |id| ensures id[i] != '/' {
      if i < 4 { assert id[i] == id[..4][i]; } else { assert id[i] == id[4..][i - 4]; }
    }
  }

  lemma JoinTwo(a: string, b: string)
    ensures Join([a, b], '/') == a + "/" + b
  {
    JoinOneMore([a], b, '/');
  }

  lemma JoinThree(a: string, b: string, c: string)
    ensures Join([a, b, c], '/') == a + "/" + b + "/" + c
  {
    JoinTwo(a, b);
    JoinOneMore([a, b], c, '/');
    assert [a, b] + [c] == [a, b, c];
  }

  lemma SplitOldName(name: string, kind: string, id: string)
    requires Lacks(kind, '/') && Lacks(id, '/') && IsOldName(name, kind, id)
    ensures var parts := Split(name, '/');
            (|parts| == 2 || |parts| == 3) && parts[|parts| - 2] == kind && parts[|parts| - 1] == id
  {
    if name == kind + "/" + id {
      JoinTwo(kind, id);
      SplitJoined([kind, id], '/');
    } else {
      var remote :| Lacks(remote, '/') && name == remote + "/" + kind + "/" + id;
      JoinThree(remote, kind, id);
      SplitJoined([remote, kind, id], '/');
    }
  }

  /** The names that answer a number are exactly the three shapes, alone or behind one segment. */
  lemma TaskNumberExactly(name: string, n: nat)
    ensures TaskNumberOfBranch(name) == Some(n) <==>
            exists kind, id :: IsOldKind(kind) && IsTaskId(id) && TaskNumber(id) == n && IsOldName(name, kind, id)
  {
    if TaskNumberOfBranch(name) == Some(n) {
      var parts := Split(name, '/');
      JoinSplit(name, '/');
      if |parts| == 2 {
        JoinTwo(parts[0], parts[1]);
        assert parts == [parts[0], parts[1]];
        assert IsOldName(name, parts[0], parts[1]);
      } else {
        JoinThree(parts[0], parts[1], parts[2]);
        assert parts == [parts[0], parts[1], parts[2]];
        assert Lacks(parts[0], '/');
        assert IsOldName(name, parts[1], parts[2]);
      }
    }
    if kind, id :| IsOldKind(kind) && IsTaskId(id) && TaskNumber(id) == n && IsOldName(name, kind, id) {
      TaskIdsLackSlashes(id);
      SplitOldName(name, kind, id);
    }
  }

  lemma TaskNumberOfTwo(kind: string, id: string)
    requires Lacks(kind, '/') && Lacks(id, '/')
    ensures TaskNumberOfBranch(kind + "/" + id) ==
            if IsOldKind(kind) && IsTaskId(id) then Some(TaskNumber(id)) else None
  {
    JoinTwo(kind, id);
    SplitJoined([kind, id], '/');
  }

  lemma TaskNumberOfThree(remote: string, kind: string, id: string)
    requires Lacks(remote, '/') && Lacks(kind, '/') && Lacks(id, '/')
    ensures TaskNumberOfBranch(remote + "/" + kind + "/" + id) ==
            if IsOldKind(kind) && IsTaskId(id) then Some(TaskNumber(id)) else None
  {
    JoinThree(remote, kind, id);
    SplitJoined([remote, kind, id], '/');
  }

  /** Every contract's number is read back from its old branch, alone or behind any one segment. */
  lemma TaskNumberInvertsOldBranch(contract: Contract, remote: string)
    requires IsTaskId(contract.id) && Lacks(remote, '/')
    ensures TaskNumberOfBranch(OldTaskBranch(contract)) == Some(TaskNumber(contract.id))
    ensures TaskNumberOfBranch(remote + "/" + OldTaskBranch(contract)) == Some(TaskNumber(contract.id))
  {
    hide TaskNumberOfBranch;
    var kind := if !contract.changesCode then "docs" else if contract.change == Some(Repair) then "fix" else "feature";
    var branch := OldTaskBranch(contract);
    assert branch == kind + "/" + contract.id;
    assert remote + "/" + branch == remote + "/" + kind + "/" + contract.id;
    TaskIdsLackSlashes(contract.id);
    TaskNumberOfTwo(kind, contract.id);
    TaskNumberOfThree(remote, kind, contract.id);
  }

  lemma SlugsStartAndLackSlashes(slug: string)
    requires IsSlug(slug)
    ensures slug != "" && IsSlugChar(slug[0]) && Lacks(slug, '/')
  {
  }

  /** No name made from a slug is read as an old one. */
  lemma NewNamesAreNotOld(kind: ChangeType, slug: string, n: nat)
    requires IsSlug(slug)
    ensures TaskNumberOfBranch(Candidate(Prefix(kind) + "/" + slug, n)) == None
  {
    hide TaskNumberOfBranch, Decimal, IsSlug;
    var id := slug + Ending(n);
    SlugsStartAndLackSlashes(slug);
    assert Candidate(Prefix(kind) + "/" + slug, n) == Prefix(kind) + "/" + id;
    TaskNumberOfTwo(Prefix(kind), id);
    assert id[0] == slug[0];
    assert |id| >= 4 ==> id[0] == id[..4][0];
  }
}
