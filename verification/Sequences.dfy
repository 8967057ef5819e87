/** Filtering, gathering and counting over sequences. */
module Sequences {
  import opened Orders

  // ----- filtering

  function Filter<T>(s: seq<T>, keep: T -> bool): (r: seq<T>)
    ensures |r| <= |s|
  {
    if s == [] then []
    else Filter(s[..|s| - 1], keep) + if keep(s[|s| - 1]) then [s[|s| - 1]] else []
  }

  lemma {:induction false} FilterCounts<T>(s: seq<T>, keep: T -> bool, x: T)
    ensures multiset(Filter(s, keep))[x] == if keep(x) then multiset(s)[x] else 0
  {
    if s != [] {
      FilterCounts(s[..|s| - 1], keep, x);
      assert s == s[..|s| - 1] + [s[|s| - 1]];
    }
  }

  /** Filtering is a matter of the elements, not of their order. */
  lemma FilterIgnoresOrder<T(!new)>(a: seq<T>, b: seq<T>, keep: T -> bool)
    requires multiset(a) == multiset(b)
    ensures multiset(Filter(a, keep)) == multiset(Filter(b, keep))
  {
    forall x ensures multiset(Filter(a, keep))[x] == multiset(Filter(b, keep))[x] {
      FilterCounts(a, keep, x);
      FilterCounts(b, keep, x);
    }
  }

  lemma FilterTwice<T(!new)>(s: seq<T>, first: T -> bool, second: T -> bool, both: T -> bool)
    requires forall x :: both(x) <==> first(x) && second(x)
    ensures multiset(Filter(Filter(s, first), second)) == multiset(Filter(s, both))
  {
    forall x ensures multiset(Filter(Filter(s, first), second))[x] == multiset(Filter(s, both))[x] {
      FilterCounts(s, first, x);
      FilterCounts(Filter(s, first), second, x);
      FilterCounts(s, both, x);
    }
  }

  /** A looser filter keeps no less. */
  lemma {:induction false} FilterLooser<T>(s: seq<T>, tight: T -> bool, loose: T -> bool)
    requires forall x | x in s && tight(x) :: loose(x)
    ensures |Filter(s, tight)| <= |Filter(s, loose)|
  {
    if s != [] {
      FilterLooser(s[..|s| - 1], tight, loose);
    }
  }

  /** And more, when it keeps something the tighter one does not. */
  lemma {:induction false} FilterLooserByOne<T>(s: seq<T>, tight: T -> bool, loose: T -> bool, x: T)
    requires forall y | y in s && tight(y) :: loose(y)
    requires x in s && loose(x) && !tight(x)
    ensures |Filter(s, tight)| < |Filter(s, loose)|
  {
    var init, last := s[..|s| - 1], s[|s| - 1];
    assert s == init + [last];
    if last == x {
      FilterLooser(init, tight, loose);
    } else {
      FilterLooserByOne(init, tight, loose, x);
    }
  }

  lemma FilteredIsIn<T>(s: seq<T>, keep: T -> bool, x: T)
    requires x in Filter(s, keep)
    ensures x in s && keep(x)
  {
    FilterCounts(s, keep, x);
    assert multiset(Filter(s, keep))[x] > 0;
    assert multiset(s)[x] > 0;
  }

  // ----- gathering

  ghost function Gather<A, B>(f: A -> seq<B>, s: seq<A>): seq<B> {
    if s == [] then [] else Gather(f, s[..|s| - 1]) + f(s[|s| - 1])
  }

  lemma {:induction false} GatherBoth<A, B>(f: A -> seq<B>, a: seq<A>, b: seq<A>)
    ensures Gather(f, a + b) == Gather(f, a) + Gather(f, b)
  {
    if b == [] {
      assert a + b == a;
    } else {
      GatherBoth(f, a, b[..|b| - 1]);
      assert (a + b)[..|a + b| - 1] == a + b[..|b| - 1];
    }
  }

  lemma GatherRest<A, B>(f: A -> seq<B>, s: seq<A>, at: nat)
    requires at < |s|
    ensures multiset(Gather(f, s)) == multiset(Gather(f, s[..at] + s[at + 1..])) + multiset(f(s[at]))
  {
    GatherAround(f, s, at);
    GatherBoth(f, s[..at], s[at + 1..]);
    hide Gather;
    MultisetMiddle(Gather(f, s[..at]), f(s[at]), Gather(f, s[at + 1..]));
  }

  lemma GatherAround<A, B>(f: A -> seq<B>, s: seq<A>, at: nat)
    requires at < |s|
    ensures Gather(f, s) == Gather(f, s[..at]) + f(s[at]) + Gather(f, s[at + 1..])
  {
    GatherOne(f, s, at);
    GatherSplit(f, s, at + 1);
    hide Gather;
  }

  lemma GatherSplit<A, B>(f: A -> seq<B>, s: seq<A>, at: nat)
    requires at <= |s|
    ensures Gather(f, s) == Gather(f, s[..at]) + Gather(f, s[at..])
  {
    hide Gather;
    var a, b := s[..at], s[at..];
    GatherBoth(f, a, b);
    Rejoined(s, at);
  }

  lemma Rejoined<A>(s: seq<A>, at: nat)
    requires at <= |s|
    ensures s[..at] + s[at..] == s
  {
  }

  lemma GatherOne<A, B>(f: A -> seq<B>, s: seq<A>, at: nat)
    requires at < |s|
    ensures Gather(f, s[..at + 1]) == Gather(f, s[..at]) + f(s[at])
  {
    assert s[..at + 1][..at] == s[..at];
  }

  lemma MultisetMiddle<B>(a: seq<B>, b: seq<B>, c: seq<B>)
    ensures multiset(a + b + c) == multiset(a + c) + multiset(b)
  {
  }

  lemma WithoutOne<A>(a: seq<A>, b: seq<A>, at: nat)
    requires a != [] && at < |b| && b[at] == a[|a| - 1] && multiset(a) == multiset(b)
    ensures multiset(a[..|a| - 1]) == multiset(b[..at] + b[at + 1..])
  {
    var last := b[at];
    assert a == a[..|a| - 1] + [last];
    assert b == b[..at] + [last] + b[at + 1..];
    assert multiset(a[..|a| - 1]) == multiset(a) - multiset{last};
  }

  /** What is gathered is a matter of the elements, not of their order. */
  lemma {:induction false} GatherIgnoresOrder<A, B>(f: A -> seq<B>, a: seq<A>, b: seq<A>)
    requires multiset(a) == multiset(b)
    ensures multiset(Gather(f, a)) == multiset(Gather(f, b))
  {
    if a == [] || b == [] {
      assert |multiset(a)| == |a| && |multiset(b)| == |b|;
    } else {
      var last := a[|a| - 1];
      assert last in multiset(b) by { assert last in multiset(a); }
      var at :| 0 <= at < |b| && b[at] == last;
      WithoutOne(a, b, at);
      GatherIgnoresOrder(f, a[..|a| - 1], b[..at] + b[at + 1..]);
      GatherRest(f, b, at);
    }
  }

  // ----- duplicates

  ghost predicate HasNoDuplicates<T>(s: seq<T>) {
    forall i, j | 0 <= i < j < |s| :: s[i] != s[j]
  }

  lemma {:induction false} NoDuplicatesByCount<T>(s: seq<T>)
    ensures HasNoDuplicates(s) <==> forall x | x in multiset(s) :: multiset(s)[x] == 1
  {
    if s != [] {
      var init, last := s[..|s| - 1], s[|s| - 1];
      NoDuplicatesByCount(init);
      assert s == init + [last];
      assert multiset(s) == multiset(init) + multiset{last};
      if HasNoDuplicates(s) {
        assert HasNoDuplicates(init);
        assert last !in init;
      } else if forall x | x in multiset(s) :: multiset(s)[x] == 1 {
        assert multiset(s)[last] == multiset(init)[last] + 1;
        assert last !in multiset(init);
        forall x | x in multiset(init) ensures multiset(init)[x] == 1 {
          assert multiset(s)[x] == multiset(init)[x] + multiset{last}[x];
        }
        assert false;
      }
    }
  }

  lemma SortKeepsNoDuplicates<T(!new)>(s: seq<T>, le: (T, T) -> bool)
    requires HasNoDuplicates(s)
    ensures HasNoDuplicates(SortBy(s, le))
  {
    NoDuplicatesByCount(s);
    NoDuplicatesByCount(SortBy(s, le));
  }

  lemma NoDuplicatesSameMembers<T>(a: seq<T>, b: seq<T>)
    requires HasNoDuplicates(a) && HasNoDuplicates(b) && forall x :: x in a <==> x in b
    ensures multiset(a) == multiset(b)
  {
    NoDuplicatesByCount(a);
    NoDuplicatesByCount(b);
    forall x ensures multiset(a)[x] == multiset(b)[x] {
      assert x in a <==> x in multiset(a);
      assert x in b <==> x in multiset(b);
    }
  }
}
