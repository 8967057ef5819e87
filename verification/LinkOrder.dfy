/** The order links come in: by the first session named, so merged pairs and doubtful ones mix. */
module LinkOrder {
  import opened CountedOnce
  import opened Orders
  import opened Sequences
  import opened SessionCopies
  import opened SessionLinks
  import opened UnionFind

  /** The session a link names first: a merged pair's copy, or a doubtful pair's smaller id. */
  function FirstName(link: CopyLink): string {
    match link
    case CopyOf(copy, _) => copy
    case MaybeSame(first, _) => first
  }

  /** Links are in the order of the sessions they name first, whichever kind they are. */
  lemma LinksAreByName(ss: seq<SessionReplies>, x: nat, y: nat)
    requires x < y < |CopiesOf(ss).links|
    ensures TextLe(FirstName(CopiesOf(ss).links[x]), FirstName(CopiesOf(ss).links[y]))
  {
    hide RawLinks, TextLe;
    TripleLeIsAnOrder();
    TextLeIsAnOrder();
    SortBySorts(RawLinks(ss), TripleLe);
    var sorted := SortBy(RawLinks(ss), TripleLe);
    assert TripleLe(sorted[x], sorted[y]);
  }

  /** All the merged pairs come before all the doubtful ones. */
  ghost predicate CopiesComeFirst(links: seq<CopyLink>) {
    forall x, y | 0 <= x < |links| && 0 <= y < |links| && links[x].CopyOf? && links[y].MaybeSame? :: x < y
  }

  lemma RawLinkHasAPlace(ss: seq<SessionReplies>, pair: (nat, nat), raw: RawLink)
    requires pair in LinkedPairs(ss) && pair.0 < |ss| && pair.1 < |ss| && raw == LinkOf(ss, pair.0, pair.1)
    ensures exists x :: 0 <= x < |CopiesOf(ss).links| && CopiesOf(ss).links[x] == AsLink(raw)
  {
    hide LinkedPairs, LinkOf;
    LinkedPairsAre(ss);
    var at :| 0 <= at < |LinkedPairs(ss)| && LinkedPairs(ss)[at] == pair;
    assert RawLinks(ss)[at] == raw;
    var sorted := SortBy(RawLinks(ss), TripleLe);
    assert raw in multiset(sorted) by {
      assert raw in multiset(RawLinks(ss));
    }
    var x :| 0 <= x < |sorted| && sorted[x] == raw;
    assert CopiesOf(ss).links[x] == AsLink(raw);
  }

  /** The session is the later of a linked pair in which each is in no other link. */
  ghost predicate IsMerged(ss: seq<SessionReplies>, copy: nat) {
    copy < |ss| && exists kept: nat :: kept < |ss| && IsLonePair(ss, kept, copy) && ComesFirst(ss, kept, copy)
  }

  /** The session is in a linked pair of which one is in another link too. */
  ghost predicate IsDoubtful(ss: seq<SessionReplies>, k: nat) {
    k < |ss| && exists m: nat :: Joined(LinkedPairs(ss), k, m) && !IsLonePair(ss, k, m)
  }

  /** A merged session is the copy some link names first. */
  lemma MergedHasALink(ss: seq<SessionReplies>, copy: nat) returns (x: nat)
    requires IsMerged(ss, copy)
    ensures x < |CopiesOf(ss).links| && CopiesOf(ss).links[x].CopyOf? && CopiesOf(ss).links[x].copy == ss[copy].sessionId
  {
    hide LinkedPairs, CopiesOf;
    var kept: nat :| kept < |ss| && IsLonePair(ss, kept, copy) && ComesFirst(ss, kept, copy);
    LinkedPairsAre(ss);
    var raw := (ss[copy].sessionId, ss[kept].sessionId, true);
    if (kept, copy) in LinkedPairs(ss) {
      assert LinkOf(ss, kept, copy) == raw;
      RawLinkHasAPlace(ss, (kept, copy), raw);
    } else {
      assert LinkOf(ss, copy, kept) == raw;
      RawLinkHasAPlace(ss, (copy, kept), raw);
    }
    x :| 0 <= x < |CopiesOf(ss).links| && CopiesOf(ss).links[x] == AsLink(raw);
  }

  /** A doubtful session is named by some doubtful link, which names no later name first. */
  lemma DoubtfulHasALink(ss: seq<SessionReplies>, k: nat) returns (y: nat)
    requires IsDoubtful(ss, k)
    ensures y < |CopiesOf(ss).links| && CopiesOf(ss).links[y].MaybeSame?
    ensures TextLe(CopiesOf(ss).links[y].first, ss[k].sessionId)
  {
    hide LinkedPairs, CopiesOf, TextLe, IsLonePair;
    var m: nat :| Joined(LinkedPairs(ss), k, m) && !IsLonePair(ss, k, m);
    LinkedPairsAre(ss);
    LoneBothWays(ss, k, m);
    var pair := if (k, m) in LinkedPairs(ss) then (k, m) else (m, k);
    var raw := LinkOf(ss, pair.0, pair.1);
    TextLeTotal(ss[k].sessionId, ss[m].sessionId);
    TextLeTotal(ss[k].sessionId, ss[k].sessionId);
    RawLinkHasAPlace(ss, pair, raw);
    y :| 0 <= y < |CopiesOf(ss).links| && CopiesOf(ss).links[y] == AsLink(raw);
  }

  lemma LoneBothWays(ss: seq<SessionReplies>, i: nat, j: nat)
    ensures IsLonePair(ss, i, j) == IsLonePair(ss, j, i)
  {
    hide LinkedPairs;
  }

  /** What a link says of its pair. */
  lemma LinkIsOfSessions(ss: seq<SessionReplies>, x: nat) returns (k: nat)
    requires x < |CopiesOf(ss).links|
    ensures k < |ss| && ss[k].sessionId == FirstName(CopiesOf(ss).links[x])
    ensures if CopiesOf(ss).links[x].CopyOf? then IsMerged(ss, k) else IsDoubtful(ss, k)
  {
    hide LinkedPairs, TextLe, RawLinks;
    var sorted := SortBy(RawLinks(ss), TripleLe);
    assert sorted[x] in multiset(sorted);
    var i, j := RawLinkOfPair(ss, sorted[x]);
    LoneBothWays(ss, i, j);
    assert Joined(LinkedPairs(ss), i, j) && Joined(LinkedPairs(ss), j, i);
    hide CopiesOf, IsLonePair;
    PairIsMergedOrDoubtful(ss, i, j);
    k := if ss[i].sessionId == FirstName(AsLink(sorted[x])) && (sorted[x].2 ==> ComesFirst(ss, j, i)) then i else j;
    EitherComesFirst(ss, i, j);
  }

  lemma EitherComesFirst(ss: seq<SessionReplies>, i: nat, j: nat)
    requires i < |ss| && j < |ss| && i != j
    ensures ComesFirst(ss, i, j) <==> !ComesFirst(ss, j, i)
  {
  }

  lemma PairIsMergedOrDoubtful(ss: seq<SessionReplies>, i: nat, j: nat)
    requires i < |ss| && j < |ss| && Joined(LinkedPairs(ss), i, j) && Joined(LinkedPairs(ss), j, i)
    requires IsLonePair(ss, i, j) == IsLonePair(ss, j, i)
    ensures IsLonePair(ss, i, j) && ComesFirst(ss, i, j) ==> IsMerged(ss, j)
    ensures IsLonePair(ss, i, j) && ComesFirst(ss, j, i) ==> IsMerged(ss, i)
    ensures !IsLonePair(ss, i, j) ==> IsDoubtful(ss, i) && IsDoubtful(ss, j)
  {
    hide IsLonePair, LinkedPairs, ComesFirst;
  }

  lemma LinksAreApart(ss: seq<SessionReplies>, x: nat, y: nat)
    requires HasDistinctIds(ss) && x < |CopiesOf(ss).links| && y < |CopiesOf(ss).links|
    requires CopiesOf(ss).links[x].CopyOf? && CopiesOf(ss).links[y].MaybeSame?
    ensures x < y <==> TextLe(CopiesOf(ss).links[x].copy, CopiesOf(ss).links[y].first)
  {
    hide CopiesOf, HasDistinctIds;
    var links := CopiesOf(ss).links;
    if x < y {
      LinksAreByName(ss, x, y);
    } else {
      LinksAreByName(ss, y, x);
      TextLeTotal(links[x].copy, links[y].first);
      CopyLinksAreAMatching(ss, x, y);
      assert links[x].copy in LinkNames(links[x]) && links[y].first in LinkNames(links[y]);
    }
  }

  /** Every merged session's id is before every doubtful session's. */
  ghost predicate AreMergedNamedFirst(ss: seq<SessionReplies>) {
    forall copy: nat, k: nat | copy < |ss| && k < |ss| && IsMerged(ss, copy) && IsDoubtful(ss, k) ::
      TextLe(ss[copy].sessionId, ss[k].sessionId)
  }

  lemma MergedComeFirst(ss: seq<SessionReplies>)
    requires HasDistinctIds(ss) && CopiesComeFirst(CopiesOf(ss).links)
    ensures AreMergedNamedFirst(ss)
  {
    hide CopiesOf, HasDistinctIds, IsMerged, IsDoubtful, TextLe;
    var links := CopiesOf(ss).links;
    forall copy: nat, k: nat | copy < |ss| && k < |ss| && IsMerged(ss, copy) && IsDoubtful(ss, k)
      ensures TextLe(ss[copy].sessionId, ss[k].sessionId)
    {
      var x := MergedHasALink(ss, copy);
      var y := DoubtfulHasALink(ss, k);
      LinksAreApart(ss, x, y);
      TextLeTransitive(links[x].copy, links[y].first, ss[k].sessionId);
    }
  }

  lemma NamedFirstComeFirst(ss: seq<SessionReplies>)
    requires HasDistinctIds(ss) && AreMergedNamedFirst(ss)
    ensures CopiesComeFirst(CopiesOf(ss).links)
  {
    hide CopiesOf, HasDistinctIds, IsMerged, IsDoubtful, TextLe;
    var links := CopiesOf(ss).links;
    forall x, y | 0 <= x < |links| && 0 <= y < |links| && links[x].CopyOf? && links[y].MaybeSame? ensures x < y {
      var copy := LinkIsOfSessions(ss, x);
      var k := LinkIsOfSessions(ss, y);
      LinksAreApart(ss, x, y);
    }
  }

  /** Merged pairs all come first exactly when every merged session's id is before every doubtful session's. */
  lemma CopiesComeFirstExactly(ss: seq<SessionReplies>)
    requires HasDistinctIds(ss)
    ensures CopiesComeFirst(CopiesOf(ss).links) <==> AreMergedNamedFirst(ss)
  {
    hide CopiesOf, HasDistinctIds, CopiesComeFirst, AreMergedNamedFirst;
    if CopiesComeFirst(CopiesOf(ss).links) {
      MergedComeFirst(ss);
    }
    if AreMergedNamedFirst(ss) {
      NamedFirstComeFirst(ss);
    }
  }

  // ----- three sessions that may be the same, and one that is a copy of a fifth

  function Session(id: string, firstAt: int, marks: string): SessionReplies {
    SessionReplies(id, firstAt, firstAt, [Reply(id + "1", marks + "1"), Reply(id + "2", marks + "2"), Reply(id + "3", marks + "3")])
  }

  lemma SessionsHoldAll(a: string, b: string, f: int, g: int, m: string)
    requires |a| == |b| && a != b
    ensures SharedPositions(Session(a, f, m), Session(b, g, m)) == {0, 1, 2}
  {
    var (s, t) := (Session(a, f, m), Session(b, g, m));
    forall i: nat | i < 3 ensures HoldsElsewhere(t, s.replies[i]) {
      assert t.replies[i].key[..|b|] == b && s.replies[i].key[..|a|] == a;
      assert t.replies[i].mark == s.replies[i].mark;
    }
  }

  lemma ThreeMarks(m: string)
    ensures |{m + "1", m + "2", m + "3"}| == 3
  {
    assert (m + "1")[|m|] == '1' && (m + "2")[|m|] == '2' && (m + "3")[|m|] == '3';
  }

  lemma SessionsShareAll(a: string, b: string, f: int, g: int, m: string)
    requires |a| == |b| && a != b
    ensures AreLinked(Session(a, f, m), Session(b, g, m))
  {
    hide HoldsElsewhere;
    var (s, t) := (Session(a, f, m), Session(b, g, m));
    var shared := SharedPositions(s, t);
    SessionsHoldAll(a, b, f, g, m);
    assert IsPrefixCovered(s.replies, shared) by {
      assert 2 in shared;
    }
    hide SharedPositions, IsPrefixCovered;
    var marks := {m + "1", m + "2", m + "3"};
    assert marks <= SharedMarks(s, t) by {
      assert 0 in shared && 1 in shared && 2 in shared;
      assert s.replies[0].mark == m + "1" && s.replies[1].mark == m + "2" && s.replies[2].mark == m + "3";
    }
    ThreeMarks(m);
    SubsetIsNoLarger(marks, SharedMarks(s, t));
  }

  lemma SubsetIsNoLarger<T>(a: set<T>, b: set<T>)
    requires a <= b
    ensures |a| <= |b|
  {
    assert b == a + (b - a);
  }

  lemma SessionsShareNone(a: string, b: string, f: int, g: int, m: string, n: string)
    requires |m| == |n| && m != n
    ensures !AreLinked(Session(a, f, m), Session(b, g, n))
  {
    var (s, t) := (Session(a, f, m), Session(b, g, n));
    forall i: nat | i < 3 ensures !HoldsElsewhere(t, s.replies[i]) {
      forall j: nat | j < 3 ensures t.replies[j].mark != s.replies[i].mark {
        assert t.replies[j].mark[..|n|] == n && s.replies[i].mark[..|m|] == m;
      }
    }
    assert SharedMarks(s, t) == {};
  }

  /** "a", "b" and "c" hold the same three replies; "d" and "e" hold three others, "e" first. */
  function Sample(): seq<SessionReplies> {
    seq(5, i requires 0 <= i < 5 => Session(["abcde"[i]], 5 - i, if i < 3 then "m" else "n"))
  }

  lemma SampleLinks(i: nat, j: nat)
    requires i < 5 && j < 5 && i != j
    ensures AreLinked(Sample()[i], Sample()[j]) <==> (i < 3 <==> j < 3)
  {
    hide AreLinked, Session;
    var (a, b) := (["abcde"[i]], ["abcde"[j]]);
    if i < 3 <==> j < 3 {
      assert a[0] != b[0];
      SessionsShareAll(a, b, 5 - i, 5 - j, if i < 3 then "m" else "n");
    } else {
      var (m, n) := (if i < 3 then "m" else "n", if j < 3 then "m" else "n");
      assert m[0] != n[0];
      SessionsShareNone(a, b, 5 - i, 5 - j, m, n);
    }
  }

  lemma SamplePairs()
    ensures HasDistinctIds(Sample())
    ensures Joined(LinkedPairs(Sample()), 0, 1) && !IsLonePair(Sample(), 0, 1) && IsLonePair(Sample(), 4, 3)
  {
    hide AreLinked, LinkedPairs;
    var ss := Sample();
    forall i, j | 0 <= i < 5 && 0 <= j < 5 && ss[i].sessionId == ss[j].sessionId ensures i == j {
      assert ss[i].sessionId[0] == "abcde"[i] && ss[j].sessionId[0] == "abcde"[j];
    }
    hide Sample, HasDistinctIds;
    LinkedPairsAre(ss);
    forall i: nat, j: nat ensures Joined(LinkedPairs(ss), i, j) <==> i < 5 && j < 5 && i != j && (i < 3 <==> j < 3) {
      JoinedMeansLinked(ss, i, j);
      if i < 5 && j < 5 && i != j {
        SampleLinks(i, j);
      }
    }
    assert Joined(LinkedPairs(ss), 0, 2);
    SampleLinks(0, 1);
    SampleLinks(3, 4);
  }

  lemma SampleIsMixed()
    requires Joined(LinkedPairs(Sample()), 0, 1) && !IsLonePair(Sample(), 0, 1) && IsLonePair(Sample(), 4, 3)
    ensures IsMerged(Sample(), 3) && IsDoubtful(Sample(), 0)
    ensures !TextLe(Sample()[3].sessionId, Sample()[0].sessionId)
  {
    hide IsLonePair, LinkedPairs;
    var ss := Sample();
    assert ss[0].sessionId == "a" && ss[3].sessionId == "d";
    assert ss[3].firstAt == 2 && ss[4].firstAt == 1;
    assert ComesFirst(ss, 4, 3);
  }

  lemma SampleIsNotNamedFirst()
    requires IsMerged(Sample(), 3) && IsDoubtful(Sample(), 0) && !TextLe(Sample()[3].sessionId, Sample()[0].sessionId)
    ensures !AreMergedNamedFirst(Sample())
  {
    hide IsMerged, IsDoubtful, TextLe;
  }

  /** Merged pairs need not come first: "d" is a copy of "e", and comes after the doubtful "a" and "b". */
  lemma CopiesNeedNotComeFirst()
    ensures HasDistinctIds(Sample()) && !CopiesComeFirst(CopiesOf(Sample()).links)
  {
    hide *;
    SamplePairs();
    SampleIsMixed();
    CopiesComeFirstExactly(Sample());
    SampleIsNotNamedFirst();
  }
}
