/** Which sessions are linked: the pairwise test, the fingerprint index that speeds it up, and
    how many links touch a session. */
module SessionLinks {
  import opened UnionFind

  const MIN_SHARED_REPLIES := 3

  /** A reply: its key, and its fingerprint as `mark`. */
  datatype Reply = Reply(key: string, mark: string)

  datatype SessionReplies = SessionReplies(sessionId: string, firstAt: int, indexed: int, replies: seq<Reply>)

  predicate HoldsMark(s: SessionReplies, mark: string) {
    exists p | 0 <= p < |s.replies| :: s.replies[p].mark == mark
  }

  /** Whether `b` holds `r`'s fingerprint under another key. */
  predicate HoldsElsewhere(b: SessionReplies, r: Reply) {
    exists p | 0 <= p < |b.replies| :: b.replies[p].mark == r.mark && b.replies[p].key != r.key
  }

  function SharedPositions(a: SessionReplies, b: SessionReplies): (r: set<nat>)
    ensures forall i | i in r :: i < |a.replies|
  {
    set i: nat | i < |a.replies| && HoldsElsewhere(b, a.replies[i])
  }

  function SharedMarks(a: SessionReplies, b: SessionReplies): set<string> {
    set i | i in SharedPositions(a, b) :: a.replies[i].mark
  }

  predicate IsPrefixCovered(replies: seq<Reply>, shared: set<nat>) {
    exists last | last in shared ::
      && (forall i | i in shared :: i <= last)
      && (forall i: nat | i <= last :: i in shared)
      && last < |replies|
  }

  predicate AreLinked(a: SessionReplies, b: SessionReplies) {
    && |SharedMarks(a, b)| >= MIN_SHARED_REPLIES
    && (IsPrefixCovered(a.replies, SharedPositions(a, b)) || IsPrefixCovered(b.replies, SharedPositions(b, a)))
  }

  lemma SharedMarksMirror(a: SessionReplies, b: SessionReplies, mark: string)
    requires mark in SharedMarks(a, b)
    ensures mark in SharedMarks(b, a)
    ensures HoldsMark(a, mark) && HoldsMark(b, mark)
  {
    var i :| i in SharedPositions(a, b) && a.replies[i].mark == mark;
    var j :| 0 <= j < |b.replies| && b.replies[j].mark == mark && b.replies[j].key != a.replies[i].key;
    assert HoldsElsewhere(a, b.replies[j]);
    assert j in SharedPositions(b, a);
  }

  lemma AreLinkedIsSymmetric(a: SessionReplies, b: SessionReplies)
    ensures AreLinked(a, b) == AreLinked(b, a)
  {
    forall mark ensures mark in SharedMarks(a, b) <==> mark in SharedMarks(b, a) {
      if mark in SharedMarks(a, b) { SharedMarksMirror(a, b, mark); }
      if mark in SharedMarks(b, a) { SharedMarksMirror(b, a, mark); }
    }
    assert SharedMarks(a, b) == SharedMarks(b, a);
  }

  lemma LinkedShareAMark(a: SessionReplies, b: SessionReplies)
    requires AreLinked(a, b)
    ensures exists mark :: HoldsMark(a, mark) && HoldsMark(b, mark)
  {
    var mark :| mark in SharedMarks(a, b);
    SharedMarksMirror(a, b, mark);
  }

  // ----- what a link is, reply by reply

  /** A reply of `a` and a reply of `b` have this fingerprint and different keys. */
  ghost predicate IsSharedMark(a: SessionReplies, b: SessionReplies, mark: string) {
    exists p, q | 0 <= p < |a.replies| && 0 <= q < |b.replies| ::
      a.replies[p].mark == b.replies[q].mark == mark && a.replies[p].key != b.replies[q].key
  }

  /** The fingerprint of reply `p` of `a` is that of a reply of `b` with another key. */
  ghost predicate IsSharedReply(a: SessionReplies, b: SessionReplies, p: nat)
    requires p < |a.replies|
  {
    exists q | 0 <= q < |b.replies| ::
      b.replies[q].mark == a.replies[p].mark && b.replies[q].key != a.replies[p].key
  }

  /** The replies of `a` whose fingerprint `b` has under another key are exactly its first `n`. */
  ghost predicate AreFirstShared(a: SessionReplies, b: SessionReplies, n: nat) {
    n <= |a.replies| && forall p: nat | p < |a.replies| :: p < n <==> IsSharedReply(a, b, p)
  }

  lemma SharedPositionsAre(a: SessionReplies, b: SessionReplies, p: nat)
    ensures p in SharedPositions(a, b) <==> p < |a.replies| && IsSharedReply(a, b, p)
  {
  }

  lemma SharedMarksAre(a: SessionReplies, b: SessionReplies, mark: string)
    ensures mark in SharedMarks(a, b) <==> IsSharedMark(a, b, mark)
  {
    if IsSharedMark(a, b, mark) {
      var p, q :| 0 <= p < |a.replies| && 0 <= q < |b.replies| &&
                  a.replies[p].mark == b.replies[q].mark == mark && a.replies[p].key != b.replies[q].key;
      SharedPositionsAre(a, b, p);
    }
  }

  lemma ThreeOfMany<T>(s: set<T>)
    ensures |s| >= 3 <==> exists x, y, z :: x in s && y in s && z in s && x != y && y != z && x != z
  {
    if |s| >= 3 {
      var x :| x in s;
      assert |s - {x}| >= 2;
      var y :| y in s - {x};
      assert |s - {x} - {y}| >= 1;
      var z :| z in s - {x} - {y};
    }
    if x, y, z :| x in s && y in s && z in s && x != y && y != z && x != z {
      assert {x, y, z} <= s && |{x, y, z}| == 3;
      assert s == {x, y, z} + (s - {x, y, z});
    }
  }

  lemma PrefixCoveredIs(a: SessionReplies, b: SessionReplies)
    requires SharedPositions(a, b) != {}
    ensures IsPrefixCovered(a.replies, SharedPositions(a, b)) <==> exists n: nat :: AreFirstShared(a, b, n)
  {
    var shared := SharedPositions(a, b);
    forall n: nat ensures AreFirstShared(a, b, n) <==> n <= |a.replies| && AreFirst(shared, n) {
      FirstSharedIs(a, b, n);
    }
    hide AreFirstShared, SharedPositions;
    if IsPrefixCovered(a.replies, shared) {
      var last :| last in shared && (forall i | i in shared :: i <= last) && (forall i: nat | i <= last :: i in shared)
                  && last < |a.replies|;
      assert AreFirstShared(a, b, last + 1);
    }
    if n: nat :| AreFirstShared(a, b, n) {
      var i :| i in shared;
      assert n - 1 in shared;
    }
  }

  ghost predicate AreFirst(positions: set<nat>, n: nat) {
    forall i: nat :: i in positions <==> i < n
  }

  lemma FirstSharedIs(a: SessionReplies, b: SessionReplies, n: nat)
    ensures AreFirstShared(a, b, n) <==> n <= |a.replies| && AreFirst(SharedPositions(a, b), n)
  {
    var shared := SharedPositions(a, b);
    if AreFirstShared(a, b, n) {
      forall i: nat ensures i in shared <==> i < n {
        SharedPositionsAre(a, b, i);
      }
      assert AreFirst(shared, n);
    }
    if n <= |a.replies| && AreFirst(shared, n) {
      forall p: nat | p < |a.replies| ensures p < n <==> IsSharedReply(a, b, p) {
        SharedPositionsAre(a, b, p);
      }
    }
  }

  lemma SharedEitherWay(a: SessionReplies, b: SessionReplies)
    requires SharedMarks(a, b) != {}
    ensures SharedPositions(a, b) != {} && SharedPositions(b, a) != {}
  {
    var mark :| mark in SharedMarks(a, b);
    SharedMarksMirror(a, b, mark);
  }

  ghost predicate HaveThreeSharedMarks(a: SessionReplies, b: SessionReplies) {
    exists x, y, z :: x != y && y != z && x != z &&
      IsSharedMark(a, b, x) && IsSharedMark(a, b, y) && IsSharedMark(a, b, z)
  }

  lemma ThreeShared(a: SessionReplies, b: SessionReplies)
    ensures |SharedMarks(a, b)| >= 3 <==> HaveThreeSharedMarks(a, b)
  {
    var marks := SharedMarks(a, b);
    forall mark ensures mark in marks <==> IsSharedMark(a, b, mark) {
      SharedMarksAre(a, b, mark);
    }
    hide IsSharedMark, SharedMarks, SharedPositions;
    ThreeOfMany(marks);
  }

  /** Two sessions are linked exactly when they have three fingerprints in common under different keys, and the
      replies of one of them that are so shared are its first ones. */
  lemma AreLinkedExactly(a: SessionReplies, b: SessionReplies)
    ensures AreLinked(a, b) <==>
            HaveThreeSharedMarks(a, b) && exists n: nat :: AreFirstShared(a, b, n) || AreFirstShared(b, a, n)
  {
    hide AreFirstShared, IsPrefixCovered, HaveThreeSharedMarks, SharedMarks, SharedPositions;
    ThreeShared(a, b);
    if SharedMarks(a, b) != {} {
      SharedEitherWay(a, b);
      PrefixCoveredIs(a, b);
      PrefixCoveredIs(b, a);
    }
  }

  // ----- the pairs, by definition

  type Test = (nat, nat) -> bool

  /** The pairs from `(i, j)` on that pass `test`, row by row, of `n` sessions. */
  function PairsFrom(test: Test, n: nat, i: nat, j: nat): seq<(nat, nat)>
    requires i <= n && j <= n + 1
    decreases n - i, n + 1 - j
  {
    if i == n then []
    else if j >= n then PairsFrom(test, n, i + 1, i + 2)
    else (if test(i, j) then [(i, j)] else []) + PairsFrom(test, n, i, j + 1)
  }

  function LinkTest(ss: seq<SessionReplies>): Test {
    (i: nat, j: nat) => i < |ss| && j < |ss| && AreLinked(ss[i], ss[j])
  }

  /** Every `i < j` that `AreLinked` holds of, in order: the all-pairs definition. */
  function LinkedPairs(ss: seq<SessionReplies>): seq<(nat, nat)> {
    PairsFrom(LinkTest(ss), |ss|, 0, 1)
  }

  predicate PairBefore(a: (nat, nat), b: (nat, nat)) {
    a.0 < b.0 || (a.0 == b.0 && a.1 < b.1)
  }

  lemma NextRowFrom(test: Test, n: nat, i: nat, j: nat)
    requires i < n <= j <= n + 1
    ensures PairsFrom(test, n, i, j) == PairsFrom(test, n, i + 1, i + 2)
  {
  }

  lemma NoneFrom(test: Test, n: nat)
    ensures PairsFrom(test, n, n, n + 1) == []
  {
  }

  lemma OnePairFrom(test: Test, n: nat, i: nat, j: nat, x: (nat, nat))
    requires i < j < n
    ensures x in PairsFrom(test, n, i, j) <==> (test(i, j) && x == (i, j)) || x in PairsFrom(test, n, i, j + 1)
  {
    var rest := PairsFrom(test, n, i, j + 1);
    if test(i, j) {
      assert PairsFrom(test, n, i, j) == [(i, j)] + rest;
    } else {
      assert PairsFrom(test, n, i, j) == [] + rest == rest;
    }
  }

  /** Of the pairs below `n`, those not before `(i, j)` are those not before the next pair, and `(i, j)` itself. */
  lemma NotBeforeNext(n: nat, i: nat, j: nat, x: (nat, nat))
    requires i < j && x.0 < x.1 < n
    ensures j < n ==> (!PairBefore(x, (i, j)) <==> x == (i, j) || !PairBefore(x, (i, j + 1)))
    ensures n <= j ==> (!PairBefore(x, (i, j)) <==> !PairBefore(x, (i + 1, i + 2)))
    ensures i == n ==> PairBefore(x, (i, j))
  {
  }

  ghost predicate Passes(test: Test, n: nat, x: (nat, nat)) {
    x.0 < x.1 < n && test(x.0, x.1)
  }

  ghost predicate MembersPass(test: Test, n: nat, i: nat, j: nat, x: (nat, nat))
    requires i <= n && j <= n + 1
  {
    x in PairsFrom(test, n, i, j) <==> Passes(test, n, x) && !PairBefore(x, (i, j))
  }

  lemma NoneLeftPass(test: Test, n: nat, x: (nat, nat))
    ensures MembersPass(test, n, n, n + 1, x)
  {
    NoneFrom(test, n);
    hide PairsFrom;
  }

  lemma NextRowPasses(test: Test, n: nat, i: nat, j: nat, x: (nat, nat))
    requires i < n <= j <= n + 1
    requires MembersPass(test, n, i + 1, i + 2, x)
    ensures MembersPass(test, n, i, j, x)
  {
    NextRowFrom(test, n, i, j);
    hide PairsFrom;
    if Passes(test, n, x) {
      NotBeforeNext(n, i, j, x);
    }
  }

  lemma NextPairPasses(test: Test, n: nat, i: nat, j: nat, x: (nat, nat))
    requires i < j < n
    requires MembersPass(test, n, i, j + 1, x)
    ensures MembersPass(test, n, i, j, x)
  {
    OnePairFrom(test, n, i, j, x);
    hide PairsFrom;
    if Passes(test, n, x) {
      NotBeforeNext(n, i, j, x);
    }
  }

  lemma {:induction false} PairsFromMembers(test: Test, n: nat, i: nat, j: nat, x: (nat, nat))
    requires i < j <= n + 1 && i <= n
    ensures MembersPass(test, n, i, j, x)
    decreases n - i, n + 1 - j
  {
    hide *;
    if i == n {
      NoneLeftPass(test, n, x);
    } else if j >= n {
      PairsFromMembers(test, n, i + 1, i + 2, x);
      NextRowPasses(test, n, i, j, x);
    } else {
      PairsFromMembers(test, n, i, j + 1, x);
      NextPairPasses(test, n, i, j, x);
    }
  }

  ghost predicate Ascends(pairs: seq<(nat, nat)>) {
    forall k, m | 0 <= k < m < |pairs| :: PairBefore(pairs[k], pairs[m])
  }

  lemma {:induction false} PairsFromAscends(test: Test, n: nat, i: nat, j: nat)
    requires i < j <= n + 1 && i <= n
    ensures Ascends(PairsFrom(test, n, i, j))
    decreases n - i, n + 1 - j
  {
    if i == n {
    } else if j >= n {
      PairsFromAscends(test, n, i + 1, i + 2);
    } else {
      PairsFromAscends(test, n, i, j + 1);
      var tail := PairsFrom(test, n, i, j + 1);
      forall m | 0 <= m < |tail| ensures PairBefore((i, j), tail[m]) {
        PairsFromMembers(test, n, i, j + 1, tail[m]);
      }
    }
  }

  /** The pairs are exactly the `i < j` that are linked, each once. */
  lemma LinkedPairsAre(ss: seq<SessionReplies>)
    ensures Ascends(LinkedPairs(ss)) && InRange(LinkedPairs(ss), |ss|)
    ensures forall a: nat, b: nat :: (a, b) in LinkedPairs(ss) <==> a < b < |ss| && AreLinked(ss[a], ss[b])
  {
    PairsFromAscends(LinkTest(ss), |ss|, 0, 1);
    forall a: nat, b: nat
      ensures (a, b) in LinkedPairs(ss) <==> a < b < |ss| && AreLinked(ss[a], ss[b])
    {
      PairsFromMembers(LinkTest(ss), |ss|, 0, 1, (a, b));
    }
    forall k | 0 <= k < |LinkedPairs(ss)|
      ensures LinkedPairs(ss)[k].0 < |ss| && LinkedPairs(ss)[k].1 < |ss|
    {
      var (a, b) := LinkedPairs(ss)[k];
      assert (a, b) in LinkedPairs(ss);
    }
  }

  /** A link joins two sessions whichever of them comes first. */
  lemma JoinedMeansLinked(ss: seq<SessionReplies>, i: nat, j: nat)
    ensures Joined(LinkedPairs(ss), i, j) <==> i != j && i < |ss| && j < |ss| && AreLinked(ss[i], ss[j])
  {
    LinkedPairsAre(ss);
    if i < |ss| && j < |ss| {
      AreLinkedIsSymmetric(ss[i], ss[j]);
    }
  }

  // ----- the same pairs, by the fingerprint index

  ghost predicate IsIndexOf(holders: map<string, set<nat>>, ss: seq<SessionReplies>, i: nat, p: nat)
    requires i <= |ss|
  {
    forall mark, k: nat ::
      (mark in holders && k in holders[mark]) <==>
      k < |ss| &&
      if k < i then HoldsMark(ss[k], mark)
      else k == i && exists q | 0 <= q < p && q < |ss[i].replies| :: ss[i].replies[q].mark == mark
  }

  method IndexReplies(ss: seq<SessionReplies>) returns (holders: map<string, set<nat>>)
    ensures IsIndexOf(holders, ss, |ss|, 0)
  {
    holders := map[];
    for i := 0 to |ss|
      invariant IsIndexOf(holders, ss, i, 0)
    {
      for p := 0 to |ss[i].replies|
        invariant IsIndexOf(holders, ss, i, p)
      {
        var mark := ss[i].replies[p].mark;
        ghost var before := holders;
        var group := if mark in holders then holders[mark] else {};
        holders := holders[mark := group + {i}];
        forall other, k
          ensures (other in holders && k in holders[other]) <==>
                  (other in before && k in before[other]) || (other == mark && k == i)
        {
        }
      }
    }
  }

  ghost predicate IsCandidate(ss: seq<SessionReplies>, marks: set<string>, i: nat, j: nat) {
    i < j < |ss| && exists mark | mark in marks :: HoldsMark(ss[i], mark) && HoldsMark(ss[j], mark)
  }

  /** The pairs of one fingerprint's holders, smaller index first. */
  method PairsWithin(group: set<nat>) returns (pairs: set<(nat, nat)>)
    ensures pairs == set i, j | i in group && j in group && i < j :: (i, j)
  {
    pairs := {};
    var left := group;
    while left != {}
      invariant left <= group
      invariant pairs == set i, j | i in group - left && j in group && i < j :: (i, j)
      decreases left
    {
      var first :| first in left;
      pairs := pairs + set second | second in group && first < second :: (first, second);
      left := left - {first};
    }
  }

  /** Two sessions are candidates exactly when some fingerprint is held by both. */
  method Candidates(ss: seq<SessionReplies>, holders: map<string, set<nat>>) returns (candidates: set<(nat, nat)>)
    requires IsIndexOf(holders, ss, |ss|, 0)
    ensures forall i: nat, j: nat :: (i, j) in candidates <==>
              i < j < |ss| && exists mark :: HoldsMark(ss[i], mark) && HoldsMark(ss[j], mark)
  {
    candidates := {};
    var marks := holders.Keys;
    while marks != {}
      invariant marks <= holders.Keys
      invariant forall i: nat, j: nat :: (i, j) in candidates <==> IsCandidate(ss, holders.Keys - marks, i, j)
      decreases marks
    {
      var mark :| mark in marks;
      ghost var done := holders.Keys - marks;
      var group := holders[mark];
      assert forall k: nat :: k in group <==> k < |ss| && HoldsMark(ss[k], mark);
      var pairs := {};
      if |group| > 1 {
        pairs := PairsWithin(group);
      } else {
        OneHolder(group);
      }
      ghost var before := candidates;
      candidates := candidates + pairs;
      marks := marks - {mark};
      assert holders.Keys - marks == done + {mark};
      forall i: nat, j: nat
        ensures (i, j) in candidates <==> IsCandidate(ss, done + {mark}, i, j)
      {
        assert (i, j) in pairs <==> i in group && j in group && i < j;
      }
    }
    forall i: nat, j: nat, mark | i < j < |ss| && HoldsMark(ss[i], mark) && HoldsMark(ss[j], mark)
      ensures mark in holders.Keys
    {
      assert i in holders[mark];
    }
  }

  lemma OneHolder(group: set<nat>)
    requires |group| <= 1
    ensures forall i, j | i in group && j in group :: i == j
  {
    forall i, j | i in group && j in group ensures i == j {
      var rest := group - {i};
      assert |rest| == 0;
      assert j !in rest;
    }
  }

  ghost predicate IsKeptSoFar(pairs: seq<(nat, nat)>, test: Test, n: nat, i: nat, j: nat)
    requires i <= n && j <= n + 1
  {
    pairs + PairsFrom(test, n, i, j) == PairsFrom(test, n, 0, 1)
  }

  /** One pair more that passes, or one that does not. */
  lemma PairsFromOne(test: Test, n: nat, i: nat, j: nat, pairs: seq<(nat, nat)>)
    requires i < j < n && IsKeptSoFar(pairs, test, n, i, j)
    ensures IsKeptSoFar(if test(i, j) then pairs + [(i, j)] else pairs, test, n, i, j + 1)
  {
    var rest := PairsFrom(test, n, i, j + 1);
    if test(i, j) {
      assert PairsFrom(test, n, i, j) == [(i, j)] + rest;
      assert pairs + ([(i, j)] + rest) == pairs + [(i, j)] + rest;
    } else {
      assert PairsFrom(test, n, i, j) == [] + rest == rest;
    }
  }

  lemma NoneKeptYet(test: Test, n: nat)
    ensures IsKeptSoFar([], test, n, 0, 1)
  {
    assert [] + PairsFrom(test, n, 0, 1) == PairsFrom(test, n, 0, 1);
  }

  lemma AllKept(pairs: seq<(nat, nat)>, test: Test, n: nat)
    requires IsKeptSoFar(pairs, test, n, n, n + 1)
    ensures pairs == PairsFrom(test, n, 0, 1)
  {
    NoneFrom(test, n);
    assert pairs + [] == pairs;
  }

  /** The candidates that pass the test, in the ordered set's order: by first index, then by second. */
  method KeepPassing(n: nat, test: Test, candidates: set<(nat, nat)>) returns (pairs: seq<(nat, nat)>)
    requires forall i: nat, j: nat | i < j < n && test(i, j) :: (i, j) in candidates
    ensures pairs == PairsFrom(test, n, 0, 1)
  {
    pairs := [];
    NoneKeptYet(test, n);
    hide PairsFrom;
    for i := 0 to n
      invariant IsKeptSoFar(pairs, test, n, i, i + 1)
    {
      for j := i + 1 to n
        invariant IsKeptSoFar(pairs, test, n, i, j)
      {
        PairsFromOne(test, n, i, j, pairs);
        if (i, j) in candidates && test(i, j) {
          pairs := pairs + [(i, j)];
        }
      }
      NextRowFrom(test, n, i, n);
    }
    AllKept(pairs, test, n);
  }

  /** Only candidates are compared, and no linked pair is lost. */
  method FindPairs(ss: seq<SessionReplies>) returns (pairs: seq<(nat, nat)>)
    ensures pairs == LinkedPairs(ss)
  {
    var holders := IndexReplies(ss);
    var candidates := Candidates(ss, holders);
    forall i: nat, j: nat | i < j < |ss| && LinkTest(ss)(i, j) ensures (i, j) in candidates {
      LinkedShareAMark(ss[i], ss[j]);
    }
    pairs := KeepPassing(|ss|, LinkTest(ss), candidates);
  }

  // ----- how many links touch a session

  function Touches(pairs: seq<(nat, nat)>, k: nat): nat {
    if pairs == [] then 0
    else
      var last := pairs[|pairs| - 1];
      Touches(pairs[..|pairs| - 1], k) + (if last.0 == k then 1 else 0) + (if last.1 == k then 1 else 0)
  }

  ghost predicate Touching(pair: (nat, nat), k: nat) {
    pair.0 == k || pair.1 == k
  }

  lemma {:induction false} TouchesNone(pairs: seq<(nat, nat)>, k: nat)
    ensures Touches(pairs, k) == 0 <==> forall m | 0 <= m < |pairs| :: !Touching(pairs[m], k)
  {
    if pairs != [] {
      var init := pairs[..|pairs| - 1];
      TouchesNone(init, k);
      if Touches(pairs, k) == 0 {
        forall m | 0 <= m < |pairs| ensures !Touching(pairs[m], k) {
          if m < |init| { assert pairs[m] == init[m]; }
        }
      } else if Touches(init, k) == 0 {
        assert Touching(pairs[|pairs| - 1], k);
      } else {
        var m :| 0 <= m < |init| && Touching(init[m], k);
        assert Touching(pairs[m], k);
      }
    }
  }

  /** A pair of two nodes touches each once, so `k` is touched once exactly when one pair touches it. */
  lemma {:induction false} TouchesOnce(pairs: seq<(nat, nat)>, k: nat, at: nat)
    requires forall m | 0 <= m < |pairs| :: pairs[m].0 < pairs[m].1
    requires at < |pairs| && Touching(pairs[at], k)
    ensures Touches(pairs, k) == 1 <==> forall m | 0 <= m < |pairs| && Touching(pairs[m], k) :: m == at
  {
    var init := pairs[..|pairs| - 1];
    assert forall m | 0 <= m < |init| :: pairs[m] == init[m];
    TouchesNone(init, k);
    if at < |init| {
      assert Touching(init[at], k);
      assert Touches(init, k) > 0;
      TouchesOnce(init, k, at);
      if Touching(pairs[|pairs| - 1], k) {
        assert Touches(pairs, k) > 1;
      } else if Touches(init, k) != 1 {
        var m :| 0 <= m < |init| && Touching(init[m], k) && m != at;
        assert Touching(pairs[m], k);
      }
    } else if Touches(init, k) != 0 {
      var m :| 0 <= m < |init| && Touching(init[m], k);
      assert Touching(pairs[m], k);
    }
  }

  /** `i` and `j` are linked, and each is in no other link. */
  ghost predicate IsLonePair(ss: seq<SessionReplies>, i: nat, j: nat) {
    && Joined(LinkedPairs(ss), i, j)
    && forall k: nat :: (Joined(LinkedPairs(ss), i, k) ==> k == j) && (Joined(LinkedPairs(ss), j, k) ==> k == i)
  }

  lemma NeighbourPair(pairs: seq<(nat, nat)>, i: nat, k: nat) returns (m: nat)
    requires Joined(pairs, i, k)
    ensures m < |pairs| && Touching(pairs[m], i) && pairs[m] == if (i, k) in pairs then (i, k) else (k, i)
  {
    m :| m < |pairs| && pairs[m] == if (i, k) in pairs then (i, k) else (k, i);
  }

  lemma AscendingPair(pairs: seq<(nat, nat)>, i: nat, j: nat, at: nat, m: nat)
    requires Ascends(pairs) && (forall x | 0 <= x < |pairs| :: pairs[x].0 < pairs[x].1)
    requires at < |pairs| && m < |pairs| && Touching(pairs[m], i)
    requires pairs[at] == (i, j) || pairs[at] == (j, i)
    requires forall k: nat | Joined(pairs, i, k) :: k == j
    ensures m == at
  {
    var pair := pairs[m];
    var other := if pair.0 == i then pair.1 else pair.0;
    assert pair in pairs && (pair == (i, other) || pair == (other, i));
    assert Joined(pairs, i, other);
    assert !PairBefore(pairs[m], pairs[at]) && !PairBefore(pairs[at], pairs[m]);
  }

  lemma OnlyNeighbour(ss: seq<SessionReplies>, i: nat, j: nat)
    requires Joined(LinkedPairs(ss), i, j)
    ensures Touches(LinkedPairs(ss), i) == 1 <==> forall k: nat :: Joined(LinkedPairs(ss), i, k) ==> k == j
  {
    var pairs := LinkedPairs(ss);
    LinkedPairsAre(ss);
    forall m | 0 <= m < |pairs| ensures pairs[m].0 < pairs[m].1 {
      assert (pairs[m].0, pairs[m].1) in pairs;
    }
    var at := NeighbourPair(pairs, i, j);
    TouchesOnce(pairs, i, at);
    if Touches(pairs, i) == 1 {
      forall k: nat | Joined(pairs, i, k) ensures k == j {
        var m := NeighbourPair(pairs, i, k);
      }
    }
    if forall k: nat :: Joined(pairs, i, k) ==> k == j {
      forall m | 0 <= m < |pairs| && Touching(pairs[m], i) ensures m == at {
        AscendingPair(pairs, i, j, at, m);
      }
    }
  }

  lemma LonePairByDegree(ss: seq<SessionReplies>, i: nat, j: nat)
    requires Joined(LinkedPairs(ss), i, j)
    ensures IsLonePair(ss, i, j) <==> Touches(LinkedPairs(ss), i) == 1 && Touches(LinkedPairs(ss), j) == 1
  {
    OnlyNeighbour(ss, i, j);
    OnlyNeighbour(ss, j, i);
  }

  lemma UntouchedIsAlone(ss: seq<SessionReplies>, i: nat, j: nat)
    requires Touches(LinkedPairs(ss), i) == 0
    requires Connected(LinkedPairs(ss), i, j)
    ensures i == j
  {
    var pairs := LinkedPairs(ss);
    var path :| Links(pairs, path, i, j);
    if |path| > 1 {
      TouchesNone(pairs, i);
      assert Joined(pairs, path[0], path[1]);
      var m :| 0 <= m < |pairs| && (pairs[m] == (i, path[1]) || pairs[m] == (path[1], i));
      assert Touching(pairs[m], i);
      assert false;
    }
  }

  method CountDegrees(n: nat, pairs: seq<(nat, nat)>) returns (degree: array<nat>)
    requires InRange(pairs, n) && forall m | 0 <= m < |pairs| :: pairs[m].0 < pairs[m].1
    ensures fresh(degree) && degree.Length == n
    ensures forall k | 0 <= k < n :: degree[k] == Touches(pairs, k)
  {
    degree := new nat[n](i => 0);
    for m := 0 to |pairs|
      invariant forall k | 0 <= k < n :: degree[k] == Touches(pairs[..m], k)
    {
      var (first, second) := pairs[m];
      assert pairs[..m + 1][..m] == pairs[..m];
      degree[first] := degree[first] + 1;
      degree[second] := degree[second] + 1;
    }
    assert pairs[..|pairs|] == pairs;
  }
}
