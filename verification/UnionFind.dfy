/** Union-find with path halving, and the reachability it computes. */
module UnionFind {

  // ----- the parent array as a forest

  /** `d` drops along every parent step that moves, and every parent is a node. */
  ghost predicate Falls(p: seq<nat>, d: seq<nat>) {
    && |d| == |p|
    && (forall i | 0 <= i < |p| :: p[i] < |p|)
    && (forall i | 0 <= i < |p| && p[i] != i :: d[p[i]] < d[i])
  }

  ghost predicate IsForest(p: seq<nat>) {
    exists d :: Falls(p, d)
  }

  ghost function RootBy(p: seq<nat>, d: seq<nat>, i: nat): (r: nat)
    requires Falls(p, d) && i < |p|
    ensures r < |p| && p[r] == r
    decreases d[i]
  {
    if p[i] == i then i else RootBy(p, d, p[i])
  }

  lemma {:induction false} RootByIgnoresMeasure(p: seq<nat>, d: seq<nat>, e: seq<nat>, i: nat)
    requires Falls(p, d) && Falls(p, e) && i < |p|
    ensures RootBy(p, d, i) == RootBy(p, e, i)
    decreases d[i]
  {
    if p[i] != i {
      RootByIgnoresMeasure(p, d, e, p[i]);
    }
  }

  /** The representative of `i`: where following parents stops. */
  ghost function Root(p: seq<nat>, i: nat): (r: nat)
    requires IsForest(p) && i < |p|
    ensures r < |p| && p[r] == r
  {
    var d :| Falls(p, d);
    RootBy(p, d, i)
  }

  lemma RootIs(p: seq<nat>, d: seq<nat>, i: nat)
    requires Falls(p, d) && i < |p|
    ensures Root(p, i) == RootBy(p, d, i)
  {
    var e :| Falls(p, e) && Root(p, i) == RootBy(p, e, i);
    RootByIgnoresMeasure(p, d, e, i);
  }

  lemma RootOfParent(p: seq<nat>, i: nat)
    requires IsForest(p) && i < |p|
    ensures p[i] < |p|
    ensures Root(p, i) == if p[i] == i then i else Root(p, p[i])
  {
    var d :| Falls(p, d);
    RootIs(p, d, i);
    RootIs(p, d, p[i]);
  }

  ghost predicate SameRoots(p: seq<nat>, q: seq<nat>) {
    && |p| == |q| && IsForest(p) && IsForest(q)
    && forall i | 0 <= i < |p| :: Root(p, i) == Root(q, i)
  }

  lemma {:induction false} HalvingKeepsRootBy(p: seq<nat>, d: seq<nat>, node: nat, i: nat)
    requires Falls(p, d) && node < |p| && i < |p|
    requires Falls(p[node := p[p[node]]], d)
    ensures RootBy(p[node := p[p[node]]], d, i) == RootBy(p, d, i)
    decreases d[i]
  {
    var q := p[node := p[p[node]]];
    if p[i] == i {
    } else if i == node && p[p[i]] != p[i] {
      HalvingKeepsRootBy(p, d, node, p[p[i]]);
    } else {
      HalvingKeepsRootBy(p, d, node, p[i]);
    }
  }

  /** Pointing a node at its grandparent changes no representative, under the same measure. */
  lemma HalvingKeepsRoots(p: seq<nat>, d: seq<nat>, node: nat)
    requires Falls(p, d) && node < |p|
    ensures Falls(p[node := p[p[node]]], d)
    ensures SameRoots(p, p[node := p[p[node]]])
  {
    var q := p[node := p[p[node]]];
    assert Falls(q, d);
    forall i | 0 <= i < |p| ensures Root(p, i) == Root(q, i) {
      HalvingKeepsRootBy(p, d, node, i);
      RootIs(p, d, i);
      RootIs(q, d, i);
    }
  }

  ghost function RootAfterLink(p: seq<nat>, x: nat, y: nat, i: nat): nat
    requires IsForest(p) && i < |p|
  {
    if Root(p, i) == x then y else Root(p, i)
  }

  lemma {:induction false} LinkRootBy(p: seq<nat>, e: seq<nat>, x: nat, y: nat, i: nat)
    requires IsForest(p) && x < |p| && y < |p| && x != y && p[x] == x && p[y] == y && i < |p|
    requires Falls(p[x := y], e)
    ensures RootBy(p[x := y], e, i) == RootAfterLink(p, x, y, i)
    decreases e[i]
  {
    RootOfParent(p, i);
    RootOfParent(p, x);
    RootOfParent(p, y);
    var q := p[x := y];
    assert q[x] == y && q[y] == y;
    if i == x {
      assert e[q[x]] < e[x];
      LinkRootBy(p, e, x, y, y);
    } else if p[i] != i {
      assert q[i] == p[i] && q[i] != i;
      LinkRootBy(p, e, x, y, p[i]);
    }
  }

  /** Hanging the root `x` under the root `y` moves exactly `x`'s tree to `y`. */
  lemma LinkMovesOneTree(p: seq<nat>, x: nat, y: nat)
    requires IsForest(p) && x < |p| && y < |p| && p[x] == x && p[y] == y
    ensures IsForest(p[x := y])
    ensures forall i | 0 <= i < |p| :: Root(p[x := y], i) == RootAfterLink(p, x, y, i)
  {
    var q := p[x := y];
    if x == y {
      assert q == p;
    } else {
      var d :| Falls(p, d);
      var e := seq(|p|, i requires 0 <= i < |p| => if Root(p, i) == x then d[i] + d[y] + 1 else d[i]);
      forall i | 0 <= i < |q| && q[i] != i ensures q[i] < |q| && e[q[i]] < e[i] {
        RootOfParent(p, i);
        RootOfParent(p, y);
      }
      assert Falls(q, e);
      forall i | 0 <= i < |p| ensures Root(q, i) == RootAfterLink(p, x, y, i) {
        LinkRootBy(p, e, x, y, i);
        RootIs(q, e, i);
      }
    }
  }

  // ----- reachability along pairs

  ghost predicate Joined(pairs: seq<(nat, nat)>, i: nat, j: nat) {
    (i, j) in pairs || (j, i) in pairs
  }

  ghost predicate IsChain(pairs: seq<(nat, nat)>, path: seq<nat>) {
    path != [] && forall k | 0 < k < |path| :: Joined(pairs, path[k - 1], path[k])
  }

  ghost predicate Links(pairs: seq<(nat, nat)>, path: seq<nat>, i: nat, j: nat) {
    IsChain(pairs, path) && path[0] == i && path[|path| - 1] == j
  }

  /** A chain of linked pairs joins `i` and `j`. */
  ghost predicate Connected(pairs: seq<(nat, nat)>, i: nat, j: nat) {
    exists path :: Links(pairs, path, i, j)
  }

  lemma ConnectedToItself(pairs: seq<(nat, nat)>, i: nat)
    ensures Connected(pairs, i, i)
  {
    assert Links(pairs, [i], i, i);
  }

  lemma ConnectedByPair(pairs: seq<(nat, nat)>, i: nat, j: nat)
    requires Joined(pairs, i, j)
    ensures Connected(pairs, i, j)
  {
    assert Links(pairs, [i, j], i, j);
  }

  lemma ConnectedBackwards(pairs: seq<(nat, nat)>, i: nat, j: nat)
    requires Connected(pairs, i, j)
    ensures Connected(pairs, j, i)
  {
    var path :| Links(pairs, path, i, j);
    var back := seq(|path|, k requires 0 <= k < |path| => path[|path| - 1 - k]);
    forall k | 0 < k < |back| ensures Joined(pairs, back[k - 1], back[k]) {
      assert Joined(pairs, path[|path| - 1 - k], path[|path| - k]);
    }
    assert Links(pairs, back, j, i);
  }

  lemma ConnectedThrough(pairs: seq<(nat, nat)>, i: nat, j: nat, k: nat)
    requires Connected(pairs, i, j) && Connected(pairs, j, k)
    ensures Connected(pairs, i, k)
  {
    var a :| Links(pairs, a, i, j);
    var b :| Links(pairs, b, j, k);
    var c := a + b[1..];
    forall m | 0 < m < |c| ensures Joined(pairs, c[m - 1], c[m]) {
      if m > |a| {
        assert Joined(pairs, b[m - |a|], b[m - |a| + 1]);
      } else if m == |a| {
        assert Joined(pairs, b[0], b[1]);
      } else {
        assert Joined(pairs, a[m - 1], a[m]);
      }
    }
    assert Links(pairs, c, i, k);
  }

  ghost predicate InRange(pairs: seq<(nat, nat)>, n: nat) {
    forall k | 0 <= k < |pairs| :: pairs[k].0 < n && pairs[k].1 < n
  }

  /** A value equal across every pair is equal along every chain. */
  lemma {:induction false} ChainKeeps<T>(pairs: seq<(nat, nat)>, n: nat, value: seq<T>, path: seq<nat>)
    requires InRange(pairs, n) && |value| == n
    requires forall k | 0 <= k < |pairs| :: value[pairs[k].0] == value[pairs[k].1]
    requires IsChain(pairs, path) && path[0] < n
    ensures path[|path| - 1] < n && value[path[0]] == value[path[|path| - 1]]
  {
    if |path| > 1 {
      var head := path[..|path| - 1];
      assert IsChain(pairs, head) by {
        forall k | 0 < k < |head| ensures Joined(pairs, head[k - 1], head[k]) {
          assert Joined(pairs, path[k - 1], path[k]);
        }
      }
      ChainKeeps(pairs, n, value, head);
      assert Joined(pairs, path[|path| - 2], path[|path| - 1]);
    }
  }

  // ----- the source's two loops

  /** Follows parents from `start`, halving the path. Every representative stays what it was. */
  method ComponentOf(parent: array<nat>, start: nat) returns (node: nat)
    requires IsForest(parent[..]) && start < parent.Length
    modifies parent
    ensures SameRoots(old(parent[..]), parent[..])
    ensures node < parent.Length && node == Root(old(parent[..]), start)
    ensures parent[node] == node
  {
    ghost var before := parent[..];
    ghost var d :| Falls(before, d);
    node := start;
    while parent[node] != node
      invariant node < parent.Length
      invariant Falls(parent[..], d)
      invariant SameRoots(before, parent[..])
      invariant Root(before, node) == Root(before, start)
      decreases d[node]
    {
      ghost var p := parent[..];
      HalvingKeepsRoots(p, d, node);
      RootOfParent(p, node);
      RootOfParent(p, p[node]);
      parent[node] := parent[parent[node]];
      assert parent[..] == p[node := p[p[node]]];
      node := parent[node];
    }
    RootOfParent(parent[..], node);
  }

  ghost predicate IsPartition(parent: seq<nat>, pairs: seq<(nat, nat)>) {
    && IsForest(parent)
    && forall i, j | 0 <= i < |parent| && 0 <= j < |parent| ::
         Root(parent, i) == Root(parent, j) <==> Connected(pairs, i, j)
  }

  /** Everything said of `p` while the pairs before `done` are joined. */
  ghost predicate Joining(p: seq<nat>, pairs: seq<(nat, nat)>, done: nat) {
    && IsForest(p) && InRange(pairs, |p|) && done <= |pairs|
    && (forall i | 0 <= i < |p| :: Connected(pairs, i, Root(p, i)))
    && (forall k | 0 <= k < done :: Root(p, pairs[k].0) == Root(p, pairs[k].1))
  }

  lemma JoiningOne(p: seq<nat>, pairs: seq<(nat, nat)>, done: nat)
    requires Joining(p, pairs, done) && done < |pairs|
    ensures var q := p[Root(p, pairs[done].0) := Root(p, pairs[done].1)];
            Joining(q, pairs, done + 1)
  {
    var (first, second) := pairs[done];
    var x, y := Root(p, first), Root(p, second);
    var q := p[x := y];
    LinkMovesOneTree(p, x, y);
    RootOfParent(p, x);
    RootOfParent(p, y);
    forall i | 0 <= i < |p| ensures Connected(pairs, i, Root(q, i)) {
      assert Root(q, i) == RootAfterLink(p, x, y, i);
      if Root(p, i) == x {
        assert Connected(pairs, i, Root(p, i));
        assert Connected(pairs, first, Root(p, first)) && Connected(pairs, second, Root(p, second));
        ConnectedBackwards(pairs, first, x);
        ConnectedByPair(pairs, first, second);
        ConnectedThrough(pairs, i, x, first);
        ConnectedThrough(pairs, i, first, second);
        ConnectedThrough(pairs, i, second, y);
      }
    }
    forall k | 0 <= k < done + 1 ensures Root(q, pairs[k].0) == Root(q, pairs[k].1) {
      assert Root(q, pairs[k].0) == RootAfterLink(p, x, y, pairs[k].0);
      assert Root(q, pairs[k].1) == RootAfterLink(p, x, y, pairs[k].1);
    }
  }

  lemma JoiningSameRoots(p: seq<nat>, q: seq<nat>, pairs: seq<(nat, nat)>, done: nat)
    requires Joining(p, pairs, done) && SameRoots(p, q)
    ensures Joining(q, pairs, done)
  {
  }

  lemma JoinedAll(p: seq<nat>, pairs: seq<(nat, nat)>)
    requires Joining(p, pairs, |pairs|)
    ensures IsPartition(p, pairs)
  {
    forall i, j | 0 <= i < |p| && 0 <= j < |p|
      ensures Root(p, i) == Root(p, j) <==> Connected(pairs, i, j)
    {
      if Root(p, i) == Root(p, j) {
        ConnectedBackwards(pairs, j, Root(p, j));
        ConnectedThrough(pairs, i, Root(p, i), j);
      }
      if Connected(pairs, i, j) {
        var path :| Links(pairs, path, i, j);
        var roots := seq(|p|, k requires 0 <= k < |p| => Root(p, k));
        ChainKeeps(pairs, |p|, roots, path);
      }
    }
  }

  /** The union loop: afterwards two nodes have one representative exactly when a chain joins them. */
  method UnionAll(n: nat, pairs: seq<(nat, nat)>) returns (parent: array<nat>)
    requires InRange(pairs, n)
    ensures fresh(parent) && parent.Length == n
    ensures IsPartition(parent[..], pairs)
  {
    parent := new nat[n](i => i);
    assert Falls(parent[..], seq(n, i => 0));
    forall i | 0 <= i < n ensures Connected(pairs, i, Root(parent[..], i)) {
      RootOfParent(parent[..], i);
      ConnectedToItself(pairs, i);
    }
    for k := 0 to |pairs|
      invariant Joining(parent[..], pairs, k)
    {
      ghost var p := parent[..];
      var (first, second) := pairs[k];
      var x := ComponentOf(parent, first);
      var y := ComponentOf(parent, second);
      ghost var q := parent[..];
      JoiningSameRoots(p, q, pairs, k);
      RootOfParent(q, x);
      JoiningOne(q, pairs, k);
      parent[x] := y;
      assert parent[..] == q[x := y];
    }
    JoinedAll(parent[..], pairs);
  }
}
