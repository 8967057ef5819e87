/** Which found projects are one project: those with one remote, but for the roots the owner said are apart. */
module RemoteGroups {
  import opened Orders
  import opened Wrappers

  datatype ProjectKey = ProjectKey(root: string, remote: Option<string>)

  /** The owner said the two roots are different; each pair is kept with the smaller path first. */
  predicate IsApart(a: string, b: string, separated: seq<(string, string)>) {
    (if TextLe(a, b) then (a, b) else (b, a)) in separated
  }

  lemma ApartIsSymmetric(a: string, b: string, separated: seq<(string, string)>)
    ensures IsApart(a, b, separated) == IsApart(b, a, separated)
  {
    TextLeTotal(a, b);
  }

  // ----- what a grouping is

  ghost predicate IsGroup(group: seq<nat>, count: nat) {
    && group != []
    && (forall m | 0 <= m < |group| :: group[m] < count)
    && (forall m, n | 0 <= m < n < |group| :: group[m] < group[n])
  }

  ghost predicate IsIn(groups: seq<seq<nat>>, g: nat, i: nat) {
    g < |groups| && i in groups[g]
  }

  ghost predicate IsGrouped(groups: seq<seq<nat>>, i: nat) {
    exists g: nat :: IsIn(groups, g, i)
  }

  ghost predicate AreGroups(groups: seq<seq<nat>>, count: nat) {
    forall g: nat | g < |groups| :: IsGroup(groups[g], count)
  }

  ghost predicate HeadsRise(groups: seq<seq<nat>>)
    requires forall g: nat | g < |groups| :: groups[g] != []
  {
    forall g: nat, h: nat | g < h < |groups| :: groups[g][0] < groups[h][0]
  }

  ghost predicate AreDisjoint(groups: seq<seq<nat>>) {
    forall g: nat, h: nat, i: nat | IsIn(groups, g, i) && IsIn(groups, h, i) :: g == h
  }

  /** Every index below `count` is in one group, once; the groups and what each holds keep the order. */
  ghost predicate IsPartitionInOrder(groups: seq<seq<nat>>, count: nat) {
    && AreGroups(groups, count) && HeadsRise(groups) && AreDisjoint(groups)
    && forall i: nat | i < count :: IsGrouped(groups, i)
  }

  /** Two projects may share a group: they have one remote and are not apart. */
  predicate MayShare(a: ProjectKey, b: ProjectKey, separated: seq<(string, string)>) {
    a.remote.Some? && a.remote == b.remote && !IsApart(a.root, b.root, separated)
  }

  /** Every two projects of every group may share it. */
  ghost predicate AllMayShare(projects: seq<ProjectKey>, separated: seq<(string, string)>, group: seq<nat>)
    requires IsGroup(group, |projects|)
  {
    forall m, n | 0 <= m < n < |group| :: MayShare(projects[group[m]], projects[group[n]], separated)
  }

  /** An earlier project of the group keeps the project `i` out of it. */
  ghost predicate IsKeptOut(projects: seq<ProjectKey>, separated: seq<(string, string)>, group: seq<nat>, i: nat)
    requires IsGroup(group, |projects|) && i < |projects|
  {
    exists k :: k in group && k < i && !MayShare(projects[k], projects[i], separated)
  }

  /** Every project is in the first group that could take it when it came: each group before its own keeps it out. */
  ghost predicate IsFirstFit(projects: seq<ProjectKey>, separated: seq<(string, string)>, groups: seq<seq<nat>>)
    requires AreGroups(groups, |projects|)
  {
    forall g: nat, h: nat, i: nat | g < h && IsIn(groups, h, i) :: IsKeptOut(projects, separated, groups[g], i)
  }

  /** The grouping of the first `count` projects. */
  ghost predicate IsFold(projects: seq<ProjectKey>, separated: seq<(string, string)>, count: nat, groups: seq<seq<nat>>)
    requires count <= |projects|
  {
    && IsPartitionInOrder(groups, count)
    && AreGroups(groups, |projects|)
    && (forall g: nat | g < |groups| :: AllMayShare(projects, separated, groups[g]))
    && IsFirstFit(projects, separated, groups)
  }

  // ----- taking one more project

  /** The groups once the project `i` has joined the group `g`, or opened one. */
  function Taken(groups: seq<seq<nat>>, g: nat, i: nat): seq<seq<nat>>
    requires g <= |groups|
  {
    if g < |groups| then groups[g := groups[g] + [i]] else groups + [[i]]
  }

  lemma TakenIn(groups: seq<seq<nat>>, g: nat, i: nat, h: nat, j: nat)
    requires g <= |groups|
    ensures IsIn(Taken(groups, g, i), h, j) <==> IsIn(groups, h, j) || (h == g && j == i)
  {
  }

  lemma TakenAreGroups(groups: seq<seq<nat>>, g: nat, i: nat)
    requires g <= |groups| && AreGroups(groups, i) && HeadsRise(groups)
    ensures AreGroups(Taken(groups, g, i), i + 1) && HeadsRise(Taken(groups, g, i))
  {
    var after := Taken(groups, g, i);
    forall h: nat | h < |after| ensures IsGroup(after[h], i + 1) {
      if h < |groups| {
        assert IsGroup(groups[h], i);
      }
    }
    assert forall h: nat | h < |groups| :: after[h][0] == groups[h][0];
  }

  lemma TakenPartition(groups: seq<seq<nat>>, g: nat, i: nat)
    requires g <= |groups| && IsPartitionInOrder(groups, i)
    ensures IsPartitionInOrder(Taken(groups, g, i), i + 1)
  {
    var after := Taken(groups, g, i);
    TakenAreGroups(groups, g, i);
    forall h: nat ensures !IsIn(groups, h, i) {
      if h < |groups| {
        assert IsGroup(groups[h], i);
      }
    }
    hide HeadsRise, IsIn, AreGroups, Taken;
    forall h: nat, j: nat ensures IsIn(after, h, j) <==> IsIn(groups, h, j) || (h == g && j == i) {
      TakenIn(groups, g, i, h, j);
    }
    forall j: nat | j < i + 1 ensures IsGrouped(after, j) {
      if j == i {
        assert IsIn(after, g, j);
      } else {
        assert IsGrouped(groups, j);
        var h: nat :| IsIn(groups, h, j);
        assert IsIn(after, h, j);
      }
    }
  }

  lemma TakenMayShare(projects: seq<ProjectKey>, separated: seq<(string, string)>, group: seq<nat>, i: nat)
    requires i < |projects| && IsGroup(group, i) && AllMayShare(projects, separated, group)
    requires forall k | k in group :: MayShare(projects[k], projects[i], separated)
    ensures IsGroup(group + [i], |projects|) && AllMayShare(projects, separated, group + [i])
  {
    hide MayShare;
  }

  lemma TakenFits(projects: seq<ProjectKey>, separated: seq<(string, string)>, groups: seq<seq<nat>>, g: nat, i: nat)
    requires i < |projects| && g <= |groups| && IsFold(projects, separated, i, groups)
    requires forall h: nat | h < g :: IsKeptOut(projects, separated, groups[h], i)
    requires AreGroups(Taken(groups, g, i), |projects|)
    ensures IsFirstFit(projects, separated, Taken(groups, g, i))
  {
    hide MayShare, IsPartitionInOrder;
    var after := Taken(groups, g, i);
    forall a: nat, b: nat, j: nat | a < b && IsIn(after, b, j) ensures IsKeptOut(projects, separated, after[a], j) {
      TakenIn(groups, g, i, b, j);
      assert IsKeptOut(projects, separated, groups[a], j);
      var k :| k in groups[a] && k < j && !MayShare(projects[k], projects[j], separated);
      assert k in after[a];
    }
  }

  lemma TakenKeepsFold(projects: seq<ProjectKey>, separated: seq<(string, string)>, groups: seq<seq<nat>>, g: nat, i: nat)
    requires i < |projects| && g <= |groups| && IsFold(projects, separated, i, groups)
    requires g < |groups| ==> forall k | k in groups[g] :: MayShare(projects[k], projects[i], separated)
    requires forall h: nat | h < g :: IsKeptOut(projects, separated, groups[h], i)
    ensures IsFold(projects, separated, i + 1, Taken(groups, g, i))
  {
    TakenPartition(groups, g, i);
    var after := Taken(groups, g, i);
    assert AreGroups(after, |projects|) by {
      forall h: nat | h < |after| ensures IsGroup(after[h], |projects|) {
        assert IsGroup(after[h], i + 1);
      }
    }
    TakenFits(projects, separated, groups, g, i);
    hide MayShare, IsPartitionInOrder, IsFirstFit;
    if g < |groups| {
      assert IsGroup(groups[g], i);
      TakenMayShare(projects, separated, groups[g], i);
    }
  }

  // ----- the grouping

  /** The project may join the group: its remote is the group's, and it is apart from no project there. */
  method Joins(projects: seq<ProjectKey>, separated: seq<(string, string)>, group: seq<nat>, i: nat) returns (joins: bool)
    requires i < |projects| && IsGroup(group, i) && AllMayShare(projects, separated, group)
    ensures joins <==> forall k | k in group :: MayShare(projects[k], projects[i], separated)
  {
    if projects[i].remote.None? || projects[group[0]].remote != projects[i].remote {
      assert group[0] in group;
      return false;
    }
    var m := 0;
    while m < |group|
      invariant 0 <= m <= |group|
      invariant forall n | 0 <= n < m :: MayShare(projects[group[n]], projects[i], separated)
    {
      assert m > 0 ==> MayShare(projects[group[0]], projects[group[m]], separated);
      if IsApart(projects[group[m]].root, projects[i].root, separated) {
        assert group[m] in group;
        return false;
      }
      m := m + 1;
    }
    return true;
  }

  method FoldByRemote(projects: seq<ProjectKey>, separated: seq<(string, string)>) returns (groups: seq<seq<nat>>)
    ensures IsFold(projects, separated, |projects|, groups)
  {
    hide MayShare, IsKeptOut, IsFirstFit, HeadsRise, AreDisjoint, IsGrouped;
    groups := [];
    FoldOfNone(projects, separated);
    for i := 0 to |projects|
      invariant IsFold(projects, separated, i, groups)
    {
      var g := 0;
      var joins := false;
      while g < |groups| && !joins
        invariant 0 <= g <= |groups|
        invariant forall h: nat | h < g :: IsKeptOut(projects, separated, groups[h], i)
        invariant joins ==> g < |groups| && forall k | k in groups[g] :: MayShare(projects[k], projects[i], separated)
        decreases |groups| - g, !joins
      {
        assert IsGroup(groups[g], i);
        joins := Joins(projects, separated, groups[g], i);
        if !joins {
          KeptOut(projects, separated, groups[g], i);
          g := g + 1;
        }
      }
      TakenKeepsFold(projects, separated, groups, g, i);
      if joins {
        groups := groups[g := groups[g] + [i]];
      } else {
        groups := groups + [[i]];
      }
    }
  }

  lemma FoldOfNone(projects: seq<ProjectKey>, separated: seq<(string, string)>)
    ensures IsFold(projects, separated, 0, [])
  {
  }

  lemma KeptOut(projects: seq<ProjectKey>, separated: seq<(string, string)>, group: seq<nat>, i: nat)
    requires i < |projects| && IsGroup(group, i)
    requires !forall k | k in group :: MayShare(projects[k], projects[i], separated)
    ensures IsGroup(group, |projects|) && IsKeptOut(projects, separated, group, i)
  {
  }

  // ----- what the grouping promises

  /** Two projects in one group have one remote, and the owner did not say they are apart. */
  lemma TogetherMayShare(projects: seq<ProjectKey>, separated: seq<(string, string)>, groups: seq<seq<nat>>,
                         g: nat, i: nat, j: nat)
    requires IsFold(projects, separated, |projects|, groups)
    requires IsIn(groups, g, i) && IsIn(groups, g, j) && i != j
    ensures MayShare(projects[i], projects[j], separated) && MayShare(projects[j], projects[i], separated)
  {
    var group := groups[g];
    var m :| 0 <= m < |group| && group[m] == i;
    var n :| 0 <= n < |group| && group[n] == j;
    ApartIsSymmetric(projects[i].root, projects[j].root, separated);
    if m < n {
      assert MayShare(projects[group[m]], projects[group[n]], separated);
    } else {
      assert MayShare(projects[group[n]], projects[group[m]], separated);
    }
  }

  /** Without a remote a project shares its group with no other. */
  lemma NoRemoteIsAlone(projects: seq<ProjectKey>, separated: seq<(string, string)>, groups: seq<seq<nat>>, g: nat, i: nat)
    requires IsFold(projects, separated, |projects|, groups)
    requires IsIn(groups, g, i) && projects[i].remote.None?
    ensures groups[g] == [i]
  {
    hide AllMayShare;
    var group := groups[g];
    assert |group| > 1 ==> group[0] < group[1];
    forall n | 0 <= n < |group| ensures group[n] == i {
      if group[n] != i {
        TogetherMayShare(projects, separated, groups, g, i, group[n]);
      }
    }
  }

  /** No two groups of one remote could be one: a project of each are apart. */
  lemma NoTwoGroupsCouldBeOne(projects: seq<ProjectKey>, separated: seq<(string, string)>, groups: seq<seq<nat>>,
                              g: nat, h: nat)
    requires IsFold(projects, separated, |projects|, groups)
    requires g < h < |groups| && projects[groups[g][0]].remote == projects[groups[h][0]].remote
    requires projects[groups[g][0]].remote.Some?
    ensures exists i, j :: i in groups[g] && j in groups[h] && IsApart(projects[i].root, projects[j].root, separated)
  {
    var j := groups[h][0];
    assert IsIn(groups, h, j);
    assert IsKeptOut(projects, separated, groups[g], j);
    var i :| i in groups[g] && i < j && !MayShare(projects[i], projects[j], separated);
    if i != groups[g][0] {
      TogetherMayShare(projects, separated, groups, g, groups[g][0], i);
    }
  }

  ghost predicate AreTogether(groups: seq<seq<nat>>, i: nat, j: nat) {
    exists g: nat :: IsIn(groups, g, i) && IsIn(groups, g, j)
  }

  lemma HeadHasTheRemote(projects: seq<ProjectKey>, separated: seq<(string, string)>, groups: seq<seq<nat>>, g: nat, i: nat)
    requires IsFold(projects, separated, |projects|, groups)
    requires IsIn(groups, g, i)
    ensures projects[groups[g][0]].remote == projects[i].remote
  {
    if i != groups[g][0] {
      TogetherMayShare(projects, separated, groups, g, groups[g][0], i);
    }
  }

  lemma ApartAcrossGroups(projects: seq<ProjectKey>, separated: seq<(string, string)>, groups: seq<seq<nat>>,
                          g: nat, h: nat, remote: Option<string>)
    requires IsFold(projects, separated, |projects|, groups)
    requires g < h < |groups| && remote.Some?
    requires projects[groups[g][0]].remote == projects[groups[h][0]].remote == remote
    ensures exists i, j | 0 <= i < |projects| && 0 <= j < |projects| ::
              projects[i].remote == projects[j].remote == remote && IsApart(projects[i].root, projects[j].root, separated)
  {
    NoTwoGroupsCouldBeOne(projects, separated, groups, g, h);
    var i, j :| i in groups[g] && j in groups[h] && IsApart(projects[i].root, projects[j].root, separated);
    HeadHasTheRemote(projects, separated, groups, g, i);
    HeadHasTheRemote(projects, separated, groups, h, j);
  }

  /** With no two projects of a remote apart, those of that remote are exactly one group. */
  lemma NothingApartIsByRemote(projects: seq<ProjectKey>, separated: seq<(string, string)>, groups: seq<seq<nat>>,
                               i: nat, j: nat)
    requires IsFold(projects, separated, |projects|, groups)
    requires i < |projects| && j < |projects| && i != j
    requires forall a, b | 0 <= a < |projects| && 0 <= b < |projects|
                             && projects[a].remote == projects[b].remote == projects[i].remote ::
               !IsApart(projects[a].root, projects[b].root, separated)
    ensures AreTogether(groups, i, j) <==> projects[i].remote.Some? && projects[i].remote == projects[j].remote
  {
    hide IsApart;
    assert IsGrouped(groups, i) && IsGrouped(groups, j);
    var g: nat :| IsIn(groups, g, i);
    var h: nat :| IsIn(groups, h, j);
    if g == h {
      TogetherMayShare(projects, separated, groups, g, i, j);
    } else if projects[i].remote.Some? && projects[i].remote == projects[j].remote {
      HeadHasTheRemote(projects, separated, groups, g, i);
      HeadHasTheRemote(projects, separated, groups, h, j);
      ApartAcrossGroups(projects, separated, groups, if g < h then g else h, if g < h then h else g, projects[i].remote);
      assert false;
    }
  }

  // ----- in terms of the pairs the owner separated

  /** Two projects of one group have one remote, and their roots are no pair the owner separated. */
  lemma SeparatedAreNotTogether(projects: seq<ProjectKey>, separated: seq<(string, string)>, groups: seq<seq<nat>>,
                                g: nat, i: nat, j: nat, low: string, high: string)
    requires IsFold(projects, separated, |projects|, groups)
    requires IsIn(groups, g, i) && IsIn(groups, g, j) && i != j
    ensures projects[i].remote.Some? && projects[i].remote == projects[j].remote
    ensures (low, high) in separated && TextLe(low, high) ==> !(projects[i].root == low && projects[j].root == high)
  {
    TogetherMayShare(projects, separated, groups, g, i, j);
    TextLeTotal(low, high);
  }

  /** Of two groups of one remote, a project of each make a pair the owner separated, smaller path first. */
  lemma GroupsAreSeparated(projects: seq<ProjectKey>, separated: seq<(string, string)>, groups: seq<seq<nat>>,
                           g: nat, h: nat)
    requires IsFold(projects, separated, |projects|, groups)
    requires g < h < |groups| && projects[groups[g][0]].remote == projects[groups[h][0]].remote
    requires projects[groups[g][0]].remote.Some?
    ensures exists i, j :: i in groups[g] && j in groups[h] &&
              var (p, q) := (projects[i].root, projects[j].root);
              ((p, q) in separated && TextLe(p, q)) || ((q, p) in separated && TextLe(q, p))
  {
    NoTwoGroupsCouldBeOne(projects, separated, groups, g, h);
    var i, j :| i in groups[g] && j in groups[h] && IsApart(projects[i].root, projects[j].root, separated);
    TextLeTotal(projects[i].root, projects[j].root);
  }

  // ----- there is one such grouping

  /** The groups of two groupings agree on the projects before `n`. */
  ghost predicate AgreeBefore(a: seq<seq<nat>>, b: seq<seq<nat>>, n: nat) {
    forall i: nat, j: nat | i < n && j < n :: AreTogether(a, i, j) <==> AreTogether(b, i, j)
  }

  lemma HeadIsLeast(group: seq<nat>, count: nat, i: nat)
    requires IsGroup(group, count) && i in group
    ensures group[0] <= i && group[0] in group
  {
  }

  lemma SameGroup(projects: seq<ProjectKey>, separated: seq<(string, string)>, groups: seq<seq<nat>>, g: nat, i: nat, j: nat)
    requires IsFold(projects, separated, |projects|, groups)
    requires IsIn(groups, g, i)
    ensures AreTogether(groups, i, j) <==> IsIn(groups, g, j)
  {
  }

  /** Groups that agree on what comes before `n` have the same head, when it comes before `n`. */
  lemma HeadsAgree(projects: seq<ProjectKey>, separated: seq<(string, string)>, a: seq<seq<nat>>, b: seq<seq<nat>>,
                   n: nat, g: nat, h: nat, i: nat)
    requires IsFold(projects, separated, |projects|, a) && IsFold(projects, separated, |projects|, b)
    requires AgreeBefore(a, b, n) && i < n
    requires IsIn(a, g, i) && IsIn(b, h, i)
    ensures a[g][0] == b[h][0]
  {
    hide IsFirstFit, AllMayShare, AreTogether;
    HeadIsLeast(a[g], |projects|, i);
    HeadIsLeast(b[h], |projects|, i);
    SameGroup(projects, separated, a, g, i, a[g][0]);
    SameGroup(projects, separated, b, h, i, a[g][0]);
    SameGroup(projects, separated, a, g, i, b[h][0]);
    SameGroup(projects, separated, b, h, i, b[h][0]);
    HeadIsLeast(a[g], |projects|, b[h][0]);
    HeadIsLeast(b[h], |projects|, a[g][0]);
  }

  /** What keeps `n` out of a group of `b` is in the group of `a` that `n` would be in. */
  lemma NotKeptOut(projects: seq<ProjectKey>, separated: seq<(string, string)>, a: seq<seq<nat>>, b: seq<seq<nat>>,
                   n: nat, g: nat, h: nat, i: nat)
    requires IsFold(projects, separated, |projects|, a) && IsFold(projects, separated, |projects|, b)
    requires AgreeBefore(a, b, n) && i < n < |projects|
    requires IsIn(a, g, i) && IsIn(a, g, n) && IsIn(b, h, i)
    ensures !IsKeptOut(projects, separated, b[h], n)
  {
    hide IsFirstFit, AllMayShare, AreTogether, MayShare;
    forall k | k in b[h] && k < n ensures MayShare(projects[k], projects[n], separated) {
      SameGroup(projects, separated, b, h, i, k);
      SameGroup(projects, separated, a, g, i, k);
      TogetherMayShare(projects, separated, a, g, k, n);
    }
  }

  lemma TogetherInBoth(projects: seq<ProjectKey>, separated: seq<(string, string)>, a: seq<seq<nat>>, b: seq<seq<nat>>,
                       n: nat, j: nat)
    requires IsFold(projects, separated, |projects|, a) && IsFold(projects, separated, |projects|, b)
    requires AgreeBefore(a, b, n) && j < n < |projects|
    requires AreTogether(a, j, n)
    ensures AreTogether(b, j, n)
  {
    var g: nat :| IsIn(a, g, j) && IsIn(a, g, n);
    assert IsGrouped(b, j) && IsGrouped(b, n);
    var h: nat :| IsIn(b, h, j);
    var h': nat :| IsIn(b, h', n);
    hide AreTogether, MayShare, IsKeptOut;
    if h < h' {
      NotKeptOut(projects, separated, a, b, n, g, h, j);
      assert false;
    } else if h' < h {
      var p := b[h'][0];
      HeadIsLeast(b[h], |projects|, j);
      HeadIsLeast(b[h'], |projects|, n);
      assert p < n;
      assert IsGrouped(a, p);
      var q: nat :| IsIn(a, q, p);
      HeadsAgree(projects, separated, a, b, n, q, h', p);
      HeadsAgree(projects, separated, a, b, n, g, h, j);
      assert q < g;
      NotKeptOut(projects, separated, b, a, n, h', q, p);
      assert false;
    } else {
      SameGroup(projects, separated, b, h, j, n);
    }
  }

  lemma {:induction false} GroupingsAgree(projects: seq<ProjectKey>, separated: seq<(string, string)>,
                                          a: seq<seq<nat>>, b: seq<seq<nat>>, n: nat)
    requires IsFold(projects, separated, |projects|, a) && IsFold(projects, separated, |projects|, b)
    requires n <= |projects|
    ensures AgreeBefore(a, b, n)
  {
    if n > 0 {
      GroupingsAgree(projects, separated, a, b, n - 1);
      hide IsFold;
      forall i: nat, j: nat | i < n && j < n ensures AreTogether(a, i, j) <==> AreTogether(b, i, j) {
        AgreeOnOneMore(projects, separated, a, b, n - 1, i, j);
      }
    }
  }

  lemma AgreeOnOneMore(projects: seq<ProjectKey>, separated: seq<(string, string)>, a: seq<seq<nat>>, b: seq<seq<nat>>,
                       n: nat, i: nat, j: nat)
    requires IsFold(projects, separated, |projects|, a) && IsFold(projects, separated, |projects|, b)
    requires AgreeBefore(a, b, n) && n < |projects| && i <= n && j <= n
    ensures AreTogether(a, i, j) <==> AreTogether(b, i, j)
  {
    if i == j {
      assert IsGrouped(a, i) && IsGrouped(b, i);
    } else if i == n || j == n {
      var other := if i == n then j else i;
      assert AreTogether(a, i, j) <==> AreTogether(a, other, n);
      assert AreTogether(b, i, j) <==> AreTogether(b, other, n);
      hide IsFold, AreTogether;
      if AreTogether(a, other, n) {
        TogetherInBoth(projects, separated, a, b, n, other);
      }
      if AreTogether(b, other, n) {
        TogetherInBoth(projects, separated, b, a, n, other);
      }
    }
  }

  /** Two groupings that put every project in the first group that could take it put the same projects together. */
  lemma OnlyOneGrouping(projects: seq<ProjectKey>, separated: seq<(string, string)>, a: seq<seq<nat>>, b: seq<seq<nat>>,
                        i: nat, j: nat)
    requires IsFold(projects, separated, |projects|, a) && IsFold(projects, separated, |projects|, b)
    requires i < |projects| && j < |projects|
    ensures AreTogether(a, i, j) <==> AreTogether(b, i, j)
  {
    GroupingsAgree(projects, separated, a, b, |projects|);
  }
}
