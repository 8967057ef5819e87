/** The answer does not depend on the order the sessions are given in. */
module SessionOrder {
  import opened Orders
  import opened Sequences
  import opened UnionFind
  import opened SessionLinks
  import opened CountedOnce
  import opened SessionCopies

  ghost predicate HasDistinctRows(ss: seq<SessionReplies>) {
    forall i, j | 0 <= i < |ss| && 0 <= j < |ss| && ss[i].indexed == ss[j].indexed :: i == j
  }

  /** `p` says where each session of `ss` stands in `tt`, and `q` the way back. */
  ghost predicate Rearranged(ss: seq<SessionReplies>, tt: seq<SessionReplies>, p: seq<nat>, q: seq<nat>) {
    && |ss| == |tt| == |p| == |q|
    && (forall i | 0 <= i < |ss| :: p[i] < |tt| && tt[p[i]] == ss[i] && q[p[i]] == i)
    && (forall j | 0 <= j < |tt| :: q[j] < |ss| && ss[q[j]] == tt[j] && p[q[j]] == j)
  }

  lemma PermutationPlaces(ss: seq<SessionReplies>, tt: seq<SessionReplies>) returns (p: seq<nat>, q: seq<nat>)
    requires multiset(ss) == multiset(tt) && HasDistinctIds(ss) && HasDistinctIds(tt)
    ensures Rearranged(ss, tt, p, q)
  {
    assert |multiset(ss)| == |ss| && |multiset(tt)| == |tt|;
    forall i | 0 <= i < |ss| ensures exists j: nat :: j < |tt| && tt[j] == ss[i] {
      assert ss[i] in multiset(tt);
    }
    forall j | 0 <= j < |tt| ensures exists i: nat :: i < |ss| && ss[i] == tt[j] {
      assert tt[j] in multiset(ss);
    }
    p := seq(|ss|, i requires 0 <= i < |ss| => var j: nat :| j < |tt| && tt[j] == ss[i]; j);
    q := seq(|tt|, j requires 0 <= j < |tt| => var i: nat :| i < |ss| && ss[i] == tt[j]; i);
    forall i | 0 <= i < |ss| ensures q[p[i]] == i {
      assert ss[q[p[i]]].sessionId == ss[i].sessionId;
    }
    forall j | 0 <= j < |tt| ensures p[q[j]] == j {
      assert tt[p[q[j]]].sessionId == tt[j].sessionId;
    }
  }

  lemma DistinctIdsCarry(ss: seq<SessionReplies>, tt: seq<SessionReplies>)
    requires multiset(ss) == multiset(tt) && HasDistinctIds(ss) && HasDistinctRows(ss)
    ensures HasDistinctIds(tt) && HasDistinctRows(tt)
  {
    forall i, j | 0 <= i < j < |tt| ensures tt[i].sessionId != tt[j].sessionId && tt[i].indexed != tt[j].indexed {
      assert tt[i] in multiset(ss) && tt[j] in multiset(ss);
      var a :| 0 <= a < |ss| && ss[a] == tt[i];
      var b :| 0 <= b < |ss| && ss[b] == tt[j];
      if a == b {
        NoDuplicatesByCount(ss);
        NoDuplicatesByCount(tt);
      }
    }
  }

  // ----- links, groups and first holders travel with the sessions

  lemma JoinedCarries(ss: seq<SessionReplies>, tt: seq<SessionReplies>, p: seq<nat>, q: seq<nat>, i: nat, j: nat)
    requires Rearranged(ss, tt, p, q) && i < |ss| && j < |ss|
    ensures Joined(LinkedPairs(ss), i, j) <==> Joined(LinkedPairs(tt), p[i], p[j])
  {
    JoinedMeansLinked(ss, i, j);
    JoinedMeansLinked(tt, p[i], p[j]);
  }

  lemma ConnectedCarries(ss: seq<SessionReplies>, tt: seq<SessionReplies>, p: seq<nat>, q: seq<nat>, i: nat, j: nat)
    requires Rearranged(ss, tt, p, q) && i < |ss|
    requires Connected(LinkedPairs(ss), i, j)
    ensures j < |ss| && Connected(LinkedPairs(tt), p[i], p[j])
  {
    var path :| Links(LinkedPairs(ss), path, i, j);
    forall k | 0 <= k < |path| ensures path[k] < |ss| {
      if k > 0 {
        JoinedMeansLinked(ss, path[k - 1], path[k]);
      }
    }
    var there := seq(|path|, k requires 0 <= k < |path| => p[path[k]]);
    forall k | 0 < k < |there| ensures Joined(LinkedPairs(tt), there[k - 1], there[k]) {
      JoinedCarries(ss, tt, p, q, path[k - 1], path[k]);
    }
    assert Links(LinkedPairs(tt), there, p[i], p[j]);
  }

  lemma HolderCarries(ss: seq<SessionReplies>, tt: seq<SessionReplies>, p: seq<nat>, q: seq<nat>, i: nat, mark: string, k: nat)
    requires Rearranged(ss, tt, p, q) && i < |ss| && IsHolder(ss, i, mark, k)
    ensures IsHolder(tt, p[i], mark, p[k])
  {
    ConnectedCarries(ss, tt, p, q, i, k);
  }

  lemma ComesFirstCarries(ss: seq<SessionReplies>, tt: seq<SessionReplies>, p: seq<nat>, q: seq<nat>, i: nat, j: nat)
    requires Rearranged(ss, tt, p, q) && HasDistinctRows(ss) && i < |ss| && j < |ss|
    ensures ComesFirst(ss, i, j) <==> ComesFirst(tt, p[i], p[j])
  {
    assert ss[i] == tt[p[i]] && ss[j] == tt[p[j]];
    if EarlierOrSame(ss[i], ss[j]) && EarlierOrSame(ss[j], ss[i]) {
      assert ss[i].indexed == ss[j].indexed;
    }
  }

  lemma FirstHolderCarries(ss: seq<SessionReplies>, tt: seq<SessionReplies>, p: seq<nat>, q: seq<nat>, i: nat, mark: string)
    requires Rearranged(ss, tt, p, q) && HasDistinctRows(ss) && i < |ss| && HoldsMark(ss[i], mark)
    ensures HoldsMark(tt[p[i]], mark)
    ensures FirstHolder(tt, p[i], mark) == p[FirstHolder(ss, i, mark)]
  {
    var k := FirstHolder(ss, i, mark);
    HolderCarries(ss, tt, p, q, i, mark, k);
    forall m: nat | m < |tt| && IsHolder(tt, p[i], mark, m) ensures ComesFirst(tt, p[k], m) {
      HolderCarries(tt, ss, q, p, p[i], mark, m);
      ComesFirstCarries(ss, tt, p, q, k, q[m]);
    }
    assert IsFirstHolder(tt, p[i], mark, p[k]);
    FirstHolderIs(tt, p[i], mark, p[k]);
  }

  lemma LonePairCarries(ss: seq<SessionReplies>, tt: seq<SessionReplies>, p: seq<nat>, q: seq<nat>, i: nat, j: nat)
    requires Rearranged(ss, tt, p, q) && i < |ss| && j < |ss| && IsLonePair(ss, i, j)
    ensures IsLonePair(tt, p[i], p[j])
  {
    JoinedCarries(ss, tt, p, q, i, j);
    forall k: nat
      ensures Joined(LinkedPairs(tt), p[i], k) ==> k == p[j]
      ensures Joined(LinkedPairs(tt), p[j], k) ==> k == p[i]
    {
      JoinedMeansLinked(tt, p[i], k);
      JoinedMeansLinked(tt, p[j], k);
      if k < |tt| {
        JoinedCarries(tt, ss, q, p, p[i], k);
        JoinedCarries(tt, ss, q, p, p[j], k);
      }
    }
  }

  // ----- the links

  lemma LinkIsSymmetric(ss: seq<SessionReplies>, i: nat, j: nat)
    requires i < |ss| && j < |ss| && HasDistinctRows(ss)
    ensures LinkOf(ss, i, j) == LinkOf(ss, j, i)
  {
    TextLeTotal(ss[i].sessionId, ss[j].sessionId);
    assert IsLonePair(ss, i, j) <==> IsLonePair(ss, j, i);
    if i != j {
      assert ss[i].indexed != ss[j].indexed;
    }
  }

  lemma LinkCarries(ss: seq<SessionReplies>, tt: seq<SessionReplies>, p: seq<nat>, q: seq<nat>, i: nat, j: nat)
    requires Rearranged(ss, tt, p, q) && HasDistinctRows(ss) && i < |ss| && j < |ss|
    ensures LinkOf(tt, p[i], p[j]) == LinkOf(ss, i, j)
  {
    if IsLonePair(ss, i, j) {
      LonePairCarries(ss, tt, p, q, i, j);
    }
    if IsLonePair(tt, p[i], p[j]) {
      LonePairCarries(tt, ss, q, p, p[i], p[j]);
    }
    ComesFirstCarries(ss, tt, p, q, i, j);
  }

  lemma RawLinkCarries(ss: seq<SessionReplies>, tt: seq<SessionReplies>, p: seq<nat>, q: seq<nat>, raw: RawLink)
    requires Rearranged(ss, tt, p, q) && HasDistinctRows(ss) && HasDistinctRows(tt)
    requires raw in RawLinks(ss)
    ensures raw in RawLinks(tt)
  {
    var i, j := RawLinkOfPair(ss, raw);
    LinkCarries(ss, tt, p, q, i, j);
    LinkIsSymmetric(tt, p[i], p[j]);
    JoinedCarries(ss, tt, p, q, i, j);
    LinkedPairsAre(tt);
    var pair := if (p[i], p[j]) in LinkedPairs(tt) then (p[i], p[j]) else (p[j], p[i]);
    assert pair in LinkedPairs(tt);
    var x :| 0 <= x < |LinkedPairs(tt)| && LinkedPairs(tt)[x] == pair;
    assert RawLinks(tt)[x] == raw;
  }

  lemma LinksIgnoreOrder(ss: seq<SessionReplies>, tt: seq<SessionReplies>, p: seq<nat>, q: seq<nat>)
    requires Rearranged(ss, tt, p, q) && HasDistinctIds(ss) && HasDistinctIds(tt)
    requires HasDistinctRows(ss) && HasDistinctRows(tt)
    ensures SortBy(RawLinks(ss), TripleLe) == SortBy(RawLinks(tt), TripleLe)
  {
    RawLinksHaveNoDuplicates(ss);
    RawLinksHaveNoDuplicates(tt);
    forall raw: RawLink ensures raw in RawLinks(ss) <==> raw in RawLinks(tt) {
      if raw in RawLinks(ss) { RawLinkCarries(ss, tt, p, q, raw); }
      if raw in RawLinks(tt) { RawLinkCarries(tt, ss, q, p, raw); }
    }
    NoDuplicatesSameMembers(RawLinks(ss), RawLinks(tt));
    TripleLeIsAnOrder();
    SortBySorts(RawLinks(ss), TripleLe);
    SortBySorts(RawLinks(tt), TripleLe);
    SortedIsUnique(SortBy(RawLinks(ss), TripleLe), SortBy(RawLinks(tt), TripleLe), TripleLe);
  }

  // ----- the replies to count once

  /** How many replies of `ss`'s session at `e.session` are `e`, among its first `p`. */
  lemma {:induction false} CountEntries(ss: seq<SessionReplies>, i: nat, p: nat, e: Entry)
    requires i <= |ss| && (p > 0 ==> i < |ss| && p <= |ss[i].replies|)
    ensures multiset(EntriesTo(ss, i, p))[e] ==
            if e.session < i then multiset(ss[e.session].replies)[Reply(e.key, e.mark)]
            else if e.session == i && p > 0 then multiset(ss[i].replies[..p])[Reply(e.key, e.mark)]
            else 0
    decreases i, p
  {
    if p > 0 {
      CountEntries(ss, i, p - 1, e);
      var r := ss[i].replies[p - 1];
      assert ss[i].replies[..p] == ss[i].replies[..p - 1] + [r];
    } else if i > 0 {
      var n := |ss[i - 1].replies|;
      CountEntries(ss, i - 1, n, e);
      assert ss[i - 1].replies[..n] == ss[i - 1].replies;
    }
  }

  ghost function Moved(e: Entry, p: seq<nat>): Entry
    requires e.session < |p|
  {
    Entry(p[e.session], e.key, e.mark)
  }

  ghost function AllMoved(es: seq<Entry>, p: seq<nat>): (moved: seq<Entry>)
    requires forall x | 0 <= x < |es| :: es[x].session < |p|
    ensures |moved| == |es|
  {
    if es == [] then [] else AllMoved(es[..|es| - 1], p) + [Moved(es[|es| - 1], p)]
  }

  lemma {:induction false} CountMoved(es: seq<Entry>, p: seq<nat>, e: Entry)
    requires forall x | 0 <= x < |es| :: es[x].session < |p|
    requires e.session < |p| && forall i, j | 0 <= i < |p| && 0 <= j < |p| && p[i] == p[j] :: i == j
    ensures multiset(AllMoved(es, p))[Moved(e, p)] == multiset(es)[e]
  {
    if es != [] {
      var init, last := es[..|es| - 1], es[|es| - 1];
      CountMoved(init, p, e);
      assert es == init + [last];
      assert Moved(last, p) == Moved(e, p) <==> last == e;
    }
  }

  lemma {:induction false} MovedStaysInRange(es: seq<Entry>, p: seq<nat>, f: Entry)
    requires forall x | 0 <= x < |es| :: es[x].session < |p|
    requires f in AllMoved(es, p)
    ensures exists i :: 0 <= i < |p| && p[i] == f.session
  {
    var init, last := es[..|es| - 1], es[|es| - 1];
    if f != Moved(last, p) {
      MovedStaysInRange(init, p, f);
    }
  }

  lemma EntriesCarry(ss: seq<SessionReplies>, tt: seq<SessionReplies>, p: seq<nat>, q: seq<nat>)
    requires Rearranged(ss, tt, p, q)
    ensures multiset(AllMoved(AllEntries(ss), p)) == multiset(AllEntries(tt))
  {
    var moved, there := AllMoved(AllEntries(ss), p), AllEntries(tt);
    forall f: Entry ensures multiset(moved)[f] == multiset(there)[f] {
      CountEntries(tt, |tt|, 0, f);
      if f.session < |tt| {
        var e := Entry(q[f.session], f.key, f.mark);
        assert Moved(e, p) == f;
        CountMoved(AllEntries(ss), p, e);
        CountEntries(ss, |ss|, 0, e);
      } else if f in moved {
        MovedStaysInRange(AllEntries(ss), p, f);
      }
    }
  }

  ghost function Dropper(ss: seq<SessionReplies>): Entry -> seq<(string, string)> {
    (e: Entry) => if IsEntry(ss, e) then DropOf(ss, e) else []
  }

  lemma {:induction false} DropsAreGathered(ss: seq<SessionReplies>, es: seq<Entry>)
    requires AreEntries(ss, es)
    ensures DropsAmong(ss, es) == Gather(Dropper(ss), es)
  {
    if es != [] {
      DropsAreGathered(ss, es[..|es| - 1]);
    }
  }

  lemma DropCarries(ss: seq<SessionReplies>, tt: seq<SessionReplies>, p: seq<nat>, q: seq<nat>, e: Entry)
    requires Rearranged(ss, tt, p, q) && HasDistinctRows(ss) && IsEntry(ss, e)
    ensures IsEntry(tt, Moved(e, p))
    ensures DropOf(tt, Moved(e, p)) == DropOf(ss, e)
  {
    EntryHolds(ss, e);
    FirstHolderCarries(ss, tt, p, q, e.session, e.mark);
    var k := FirstHolder(ss, e.session, e.mark);
    assert q[p[k]] == k && q[p[e.session]] == e.session;
  }

  lemma {:induction false} DropsCarry(ss: seq<SessionReplies>, tt: seq<SessionReplies>, p: seq<nat>, q: seq<nat>, es: seq<Entry>)
    requires Rearranged(ss, tt, p, q) && HasDistinctRows(ss) && AreEntries(ss, es)
    ensures AreEntries(tt, AllMoved(es, p))
    ensures DropsAmong(tt, AllMoved(es, p)) == DropsAmong(ss, es)
  {
    hide DropOf;
    if es != [] {
      var init := es[..|es| - 1];
      DropsCarry(ss, tt, p, q, init);
      DropCarries(ss, tt, p, q, es[|es| - 1]);
      var moved := AllMoved(es, p);
      assert moved[..|moved| - 1] == AllMoved(init, p);
    }
  }

  /** With distinct session ids and distinct rows, any permutation of the sessions has the same answer. */
  lemma CopiesIgnoreOrder(ss: seq<SessionReplies>, tt: seq<SessionReplies>)
    requires multiset(ss) == multiset(tt) && HasDistinctIds(ss) && HasDistinctRows(ss)
    ensures CopiesOf(ss) == CopiesOf(tt)
  {
    DistinctIdsCarry(ss, tt);
    var p, q := PermutationPlaces(ss, tt);
    LinksIgnoreOrder(ss, tt, p, q);
    DropsCarry(ss, tt, p, q, AllEntries(ss));
    EntriesCarry(ss, tt, p, q);
    DropsAreGathered(tt, AllMoved(AllEntries(ss), p));
    DropsAreGathered(tt, AllEntries(tt));
    GatherIgnoresOrder(Dropper(tt), AllMoved(AllEntries(ss), p), AllEntries(tt));
    SameSort(Drops(ss), Drops(tt));
  }
}
