/** Counting each reply once in every connected group of linked sessions: the rule, and the
    source's grouping that obeys it. */
module CountedOnce {
  import opened Orders
  import opened UnionFind
  import opened SessionLinks

  // ----- the rule

  function EarlierOrSame(a: SessionReplies, b: SessionReplies): bool {
    a.firstAt < b.firstAt || (a.firstAt == b.firstAt && a.indexed <= b.indexed)
  }

  /** The earlier start first, then the lower row id, then the lower position. */
  predicate ComesFirst(ss: seq<SessionReplies>, i: nat, j: nat)
    requires i < |ss| && j < |ss|
  {
    EarlierOrSame(ss[i], ss[j]) && (EarlierOrSame(ss[j], ss[i]) ==> i <= j)
  }

  /** `k` is in `i`'s group of linked sessions and holds `mark`. */
  ghost predicate IsHolder(ss: seq<SessionReplies>, i: nat, mark: string, k: nat) {
    k < |ss| && Connected(LinkedPairs(ss), i, k) && HoldsMark(ss[k], mark)
  }

  ghost predicate IsFirstHolder(ss: seq<SessionReplies>, i: nat, mark: string, k: nat) {
    && IsHolder(ss, i, mark, k)
    && forall j: nat | j < |ss| && IsHolder(ss, i, mark, j) :: ComesFirst(ss, k, j)
  }

  lemma {:induction false} FirstHolderBelow(ss: seq<SessionReplies>, i: nat, mark: string, n: nat)
    returns (k: nat)
    requires n <= |ss| && exists j: nat :: j < n && IsHolder(ss, i, mark, j)
    ensures k < n && IsHolder(ss, i, mark, k)
    ensures forall j: nat | j < n && IsHolder(ss, i, mark, j) :: ComesFirst(ss, k, j)
  {
    if exists j: nat :: j < n - 1 && IsHolder(ss, i, mark, j) {
      k := FirstHolderBelow(ss, i, mark, n - 1);
      if IsHolder(ss, i, mark, n - 1) && !ComesFirst(ss, k, n - 1) {
        k := n - 1;
      }
    } else {
      k := n - 1;
    }
  }

  lemma AFirstHolder(ss: seq<SessionReplies>, i: nat, mark: string)
    requires i < |ss| && HoldsMark(ss[i], mark)
    ensures exists k :: IsFirstHolder(ss, i, mark, k)
  {
    ConnectedToItself(LinkedPairs(ss), i);
    assert IsHolder(ss, i, mark, i);
    var k := FirstHolderBelow(ss, i, mark, |ss|);
    assert IsFirstHolder(ss, i, mark, k);
  }

  /** The session of `i`'s group whose replies with `mark` are kept. */
  ghost function FirstHolder(ss: seq<SessionReplies>, i: nat, mark: string): (k: nat)
    requires i < |ss| && HoldsMark(ss[i], mark)
    ensures IsFirstHolder(ss, i, mark, k)
  {
    AFirstHolder(ss, i, mark);
    var k :| IsFirstHolder(ss, i, mark, k);
    k
  }

  lemma FirstHolderIs(ss: seq<SessionReplies>, i: nat, mark: string, k: nat)
    requires i < |ss| && HoldsMark(ss[i], mark) && IsFirstHolder(ss, i, mark, k)
    ensures FirstHolder(ss, i, mark) == k
  {
  }

  /** One group, one first holder, from whichever member it is asked. */
  lemma FirstHolderOfGroup(ss: seq<SessionReplies>, i: nat, j: nat, mark: string)
    requires i < |ss| && j < |ss| && HoldsMark(ss[i], mark) && HoldsMark(ss[j], mark)
    requires Connected(LinkedPairs(ss), i, j)
    ensures FirstHolder(ss, i, mark) == FirstHolder(ss, j, mark)
  {
    var pairs := LinkedPairs(ss);
    var k := FirstHolder(ss, i, mark);
    ConnectedBackwards(pairs, i, j);
    ConnectedThrough(pairs, j, i, k);
    forall m: nat | m < |ss| && IsHolder(ss, j, mark, m) ensures ComesFirst(ss, k, m) {
      ConnectedThrough(pairs, i, j, m);
      assert IsHolder(ss, i, mark, m);
    }
    assert IsFirstHolder(ss, j, mark, k);
  }

  ghost predicate IsLeastKey(s: SessionReplies, mark: string, key: string) {
    && Reply(key, mark) in s.replies
    && forall r | r in s.replies && r.mark == mark :: TextLe(key, r.key)
  }

  /** `key` is the least of the keys with `mark` among the first `n` replies. */
  ghost predicate IsLeastKeyOf(rs: seq<Reply>, mark: string, n: nat, key: string)
    requires n <= |rs|
  {
    && (exists p :: 0 <= p < n && rs[p] == Reply(key, mark))
    && forall p | 0 <= p < n && rs[p].mark == mark :: TextLe(key, rs[p].key)
  }

  lemma {:induction false} LeastKeyBefore(rs: seq<Reply>, mark: string, n: nat) returns (key: string)
    requires n <= |rs| && exists p :: 0 <= p < n && rs[p].mark == mark
    ensures IsLeastKeyOf(rs, mark, n, key)
  {
    var last := rs[n - 1];
    if exists p :: 0 <= p < n - 1 && rs[p].mark == mark {
      var before := LeastKeyBefore(rs, mark, n - 1);
      TextLeTotal(before, last.key);
      if last.mark == mark && !TextLe(before, last.key) {
        key := last.key;
        assert last == Reply(key, mark);
        forall p | 0 <= p < n && rs[p].mark == mark ensures TextLe(key, rs[p].key) {
          if p < n - 1 {
            TextLeTransitive(key, before, rs[p].key);
          } else {
            TextLeTotal(key, key);
          }
        }
      } else {
        key := before;
      }
    } else {
      key := last.key;
      TextLeTotal(key, key);
      assert last == Reply(key, mark);
    }
  }

  lemma ALeastKey(s: SessionReplies, mark: string)
    requires HoldsMark(s, mark)
    ensures exists key :: IsLeastKey(s, mark, key)
  {
    var key := LeastKeyBefore(s.replies, mark, |s.replies|);
    assert IsLeastKey(s, mark, key);
  }

  ghost function LeastKey(s: SessionReplies, mark: string): (key: string)
    requires HoldsMark(s, mark)
    ensures IsLeastKey(s, mark, key)
  {
    ALeastKey(s, mark);
    var key :| IsLeastKey(s, mark, key);
    key
  }

  lemma LeastKeyIs(s: SessionReplies, mark: string, key: string)
    requires HoldsMark(s, mark) && IsLeastKey(s, mark, key)
    ensures LeastKey(s, mark) == key
  {
    TextLeTotal(key, LeastKey(s, mark));
  }

  /** A reply of the session at an index. */
  datatype Entry = Entry(session: nat, key: string, mark: string)

  ghost predicate IsEntry(ss: seq<SessionReplies>, e: Entry) {
    e.session < |ss| && Reply(e.key, e.mark) in ss[e.session].replies
  }

  lemma EntryHolds(ss: seq<SessionReplies>, e: Entry)
    requires IsEntry(ss, e)
    ensures HoldsMark(ss[e.session], e.mark)
  {
    var p :| 0 <= p < |ss[e.session].replies| && ss[e.session].replies[p] == Reply(e.key, e.mark);
  }

  /** What dropping `e` says: its key and the key kept for it; nothing when `e` is kept. */
  ghost function DropOf(ss: seq<SessionReplies>, e: Entry): seq<(string, string)>
    requires IsEntry(ss, e)
  {
    EntryHolds(ss, e);
    var k := FirstHolder(ss, e.session, e.mark);
    if k == e.session then [] else [(e.key, LeastKey(ss[k], e.mark))]
  }

  ghost predicate AreEntries(ss: seq<SessionReplies>, es: seq<Entry>) {
    forall x | 0 <= x < |es| :: IsEntry(ss, es[x])
  }

  ghost function DropsAmong(ss: seq<SessionReplies>, es: seq<Entry>): seq<(string, string)>
    requires AreEntries(ss, es)
  {
    if es == [] then [] else DropsAmong(ss, es[..|es| - 1]) + DropOf(ss, es[|es| - 1])
  }

  /** The replies of the sessions before `i`, then the first `p` of session `i`. */
  ghost function EntriesTo(ss: seq<SessionReplies>, i: nat, p: nat): (es: seq<Entry>)
    requires i <= |ss| && (p > 0 ==> i < |ss| && p <= |ss[i].replies|)
    ensures AreEntries(ss, es)
    decreases i, p
  {
    if p > 0 then
      var r := ss[i].replies[p - 1];
      assert r == Reply(r.key, r.mark);
      EntriesTo(ss, i, p - 1) + [Entry(i, r.key, r.mark)]
    else if i > 0 then EntriesTo(ss, i - 1, |ss[i - 1].replies|)
    else []
  }

  ghost function AllEntries(ss: seq<SessionReplies>): (es: seq<Entry>)
    ensures AreEntries(ss, es)
  {
    EntriesTo(ss, |ss|, 0)
  }

  /** `e` is one of session `i`'s first `p` replies, or of an earlier session. */
  ghost predicate IsEntryTo(ss: seq<SessionReplies>, i: nat, p: nat, e: Entry) {
    && IsEntry(ss, e)
    && (e.session < i || (e.session == i && exists q ::
          0 <= q < p && q < |ss[i].replies| && ss[i].replies[q] == Reply(e.key, e.mark)))
  }

  lemma EntryToNextReply(ss: seq<SessionReplies>, i: nat, p: nat, e: Entry)
    requires 0 < p && i < |ss| && p <= |ss[i].replies|
    ensures IsEntryTo(ss, i, p, e) <==>
            IsEntryTo(ss, i, p - 1, e) || e == Entry(i, ss[i].replies[p - 1].key, ss[i].replies[p - 1].mark)
  {
    var r := ss[i].replies[p - 1];
    assert r == Reply(r.key, r.mark) && r in ss[i].replies;
  }

  lemma EntryToNextSession(ss: seq<SessionReplies>, i: nat, e: Entry)
    requires 0 < i <= |ss|
    ensures IsEntryTo(ss, i, 0, e) <==> IsEntryTo(ss, i - 1, |ss[i - 1].replies|, e)
  {
  }

  lemma {:induction false} EntriesAre(ss: seq<SessionReplies>, i: nat, p: nat, e: Entry)
    requires i <= |ss| && (p > 0 ==> i < |ss| && p <= |ss[i].replies|)
    ensures e in EntriesTo(ss, i, p) <==> IsEntryTo(ss, i, p, e)
    decreases i, p
  {
    if p > 0 {
      EntriesAre(ss, i, p - 1, e);
      EntryToNextReply(ss, i, p, e);
    } else if i > 0 {
      EntriesAre(ss, i - 1, |ss[i - 1].replies|, e);
      EntryToNextSession(ss, i, e);
    }
  }

  lemma AllEntriesAre(ss: seq<SessionReplies>, e: Entry)
    ensures e in AllEntries(ss) <==> IsEntry(ss, e)
  {
    EntriesAre(ss, |ss|, 0, e);
    assert IsEntry(ss, e) ==> e.session < |ss|;
  }

  /** The replies to count once: every reply of a group but those of its fingerprint's first holder. */
  ghost function Drops(ss: seq<SessionReplies>): seq<(string, string)> {
    DropsAmong(ss, AllEntries(ss))
  }

  // ----- the groups

  type Group = (nat, string)

  ghost predicate InGroups(e: Entry, roots: seq<nat>, live: seq<bool>, done: set<Group>)
    requires e.session < |roots| == |live|
  {
    live[e.session] && (roots[e.session], e.mark) in done
  }

  /** The replies of `es` in live sessions with this representative and fingerprint. */
  ghost function Members(es: seq<Entry>, roots: seq<nat>, live: seq<bool>, g: Group): seq<Entry>
    requires |roots| == |live| && forall x | 0 <= x < |es| :: es[x].session < |roots|
  {
    if es == [] then []
    else
      Members(es[..|es| - 1], roots, live, g) +
      if InGroups(es[|es| - 1], roots, live, {g}) then [es[|es| - 1]] else []
  }

  lemma {:induction false} MembersAre(es: seq<Entry>, roots: seq<nat>, live: seq<bool>, g: Group, e: Entry)
    requires |roots| == |live| && forall x | 0 <= x < |es| :: es[x].session < |roots|
    ensures e in Members(es, roots, live, g) <==>
            e in es && live[e.session] && (roots[e.session], e.mark) == g
  {
    if es != [] {
      var init, last := es[..|es| - 1], es[|es| - 1];
      MembersAre(init, roots, live, g, e);
      assert es == init + [last];
    }
  }

  type Groups = map<Group, seq<Entry>>

  ghost predicate IsGrouping(groups: Groups, es: seq<Entry>, roots: seq<nat>, live: seq<bool>)
    requires |roots| == |live| && forall x | 0 <= x < |es| :: es[x].session < |roots|
  {
    forall g: Group ::
      Members(es, roots, live, g) == if g in groups then groups[g] else []
  }

  lemma MembersPush(es: seq<Entry>, e: Entry, roots: seq<nat>, live: seq<bool>, g: Group)
    requires |roots| == |live| && e.session < |roots| && forall x | 0 <= x < |es| :: es[x].session < |roots|
    ensures Members(es + [e], roots, live, g) ==
            Members(es, roots, live, g) + if InGroups(e, roots, live, {g}) then [e] else []
  {
    assert (es + [e])[..|es|] == es;
  }

  lemma {:induction false} DeadSessionAddsNothing(ss: seq<SessionReplies>, i: nat, p: nat, roots: seq<nat>, live: seq<bool>, g: Group)
    requires i < |ss| == |roots| == |live| && p <= |ss[i].replies| && !live[i]
    ensures Members(EntriesTo(ss, i, p), roots, live, g) == Members(EntriesTo(ss, i, 0), roots, live, g)
  {
    if p > 0 {
      var r := ss[i].replies[p - 1];
      DeadSessionAddsNothing(ss, i, p - 1, roots, live, g);
      MembersPush(EntriesTo(ss, i, p - 1), Entry(i, r.key, r.mark), roots, live, g);
    }
  }

  /** Which sessions some link touches. */
  function Live(degree: seq<nat>): (live: seq<bool>)
    ensures |live| == |degree|
  {
    seq(|degree|, i requires 0 <= i < |degree| => degree[i] > 0)
  }

  /** `groups.entry(g).or_default().push(member)`. */
  function Pushed(groups: Groups, g: Group, member: Entry): Groups {
    groups[g := (if g in groups then groups[g] else []) + [member]]
  }

  lemma PushKeepsGrouping(groups: Groups, ss: seq<SessionReplies>, i: nat, p: nat, roots: seq<nat>, live: seq<bool>)
    requires i < |ss| == |roots| == |live| && p < |ss[i].replies| && live[i]
    requires IsGrouping(groups, EntriesTo(ss, i, p), roots, live)
    ensures IsGrouping(Pushed(groups, (roots[i], ss[i].replies[p].mark), Entry(i, ss[i].replies[p].key, ss[i].replies[p].mark)),
                       EntriesTo(ss, i, p + 1), roots, live)
  {
    var r := ss[i].replies[p];
    var (before, e) := (EntriesTo(ss, i, p), Entry(i, r.key, r.mark));
    var after := Pushed(groups, (roots[i], r.mark), e);
    assert EntriesTo(ss, i, p + 1) == before + [e];
    hide Members, EntriesTo;
    forall h: Group ensures Members(before + [e], roots, live, h) == if h in after then after[h] else [] {
      MembersPush(before, e, roots, live, h);
      assert Members(before, roots, live, h) == if h in groups then groups[h] else [];
    }
  }

  /** One session's replies, pushed one by one. */
  method GroupSession(ss: seq<SessionReplies>, i: nat, component: nat, groups: Groups,
                      ghost roots: seq<nat>, ghost live: seq<bool>)
    returns (after: Groups)
    requires i < |ss| == |roots| == |live| && live[i] && roots[i] == component
    requires IsGrouping(groups, EntriesTo(ss, i, 0), roots, live)
    ensures IsGrouping(after, EntriesTo(ss, i + 1, 0), roots, live)
  {
    after := groups;
    for p := 0 to |ss[i].replies|
      invariant IsGrouping(after, EntriesTo(ss, i, p), roots, live)
    {
      var r := ss[i].replies[p];
      PushKeepsGrouping(after, ss, i, p, roots, live);
      after := Pushed(after, (component, r.mark), Entry(i, r.key, r.mark));
    }
  }

  lemma DeadSessionKeepsGrouping(groups: Groups, ss: seq<SessionReplies>, i: nat, roots: seq<nat>, live: seq<bool>)
    requires i < |ss| == |roots| == |live| && !live[i]
    requires IsGrouping(groups, EntriesTo(ss, i, 0), roots, live)
    ensures IsGrouping(groups, EntriesTo(ss, i + 1, 0), roots, live)
  {
    forall h: Group
      ensures Members(EntriesTo(ss, i + 1, 0), roots, live, h) == if h in groups then groups[h] else []
    {
      DeadSessionAddsNothing(ss, i, |ss[i].replies|, roots, live, h);
      assert Members(EntriesTo(ss, i, 0), roots, live, h) == if h in groups then groups[h] else [];
    }
  }

  ghost predicate AreRootsOf(roots: seq<nat>, parent: seq<nat>) {
    && |roots| == |parent| && IsForest(parent)
    && forall k | 0 <= k < |parent| :: roots[k] == Root(parent, k)
  }

  /** The replies of every session in a link, by representative and fingerprint. */
  method GroupReplies(ss: seq<SessionReplies>, parent: array<nat>, degree: seq<nat>, ghost roots: seq<nat>)
    returns (groups: Groups)
    requires parent.Length == |degree| == |ss| && AreRootsOf(roots, parent[..])
    modifies parent
    ensures IsGrouping(groups, AllEntries(ss), roots, Live(degree))
  {
    groups := map[];
    for i := 0 to |ss|
      invariant AreRootsOf(roots, parent[..])
      invariant IsGrouping(groups, EntriesTo(ss, i, 0), roots, Live(degree))
    {
      if degree[i] == 0 {
        DeadSessionKeepsGrouping(groups, ss, i, roots, Live(degree));
      } else {
        var component := ComponentOf(parent, i);
        groups := GroupSession(ss, i, component, groups, roots, Live(degree));
      }
    }
  }

  /** `members` are the replies with `mark` in one group of linked sessions, all of them. */
  ghost predicate IsWholeGroup(ss: seq<SessionReplies>, members: seq<Entry>, mark: string) {
    && AreEntries(ss, members)
    && (forall x | 0 <= x < |members| :: members[x].mark == mark)
    && (forall x, e: Entry | 0 <= x < |members| && IsEntry(ss, e) && e.mark == mark ::
          e in members <==> Connected(LinkedPairs(ss), members[x].session, e.session))
  }

  // ----- which session of a group is kept

  /** What `keptOf` says: each kept session of a lone pair, and its copy. */
  ghost predicate IsKeptOf(ss: seq<SessionReplies>, keptOf: map<nat, nat>) {
    && (forall k | k in keptOf ::
          k < |ss| && keptOf[k] < |ss| && IsLonePair(ss, k, keptOf[k]) && ComesFirst(ss, k, keptOf[k]))
    && (forall i: nat, j: nat | i < |ss| && j < |ss| && IsLonePair(ss, i, j) && ComesFirst(ss, i, j) :: i in keptOf)
  }

  /** A lone pair is a whole group. */
  lemma LonePairIsAGroup(ss: seq<SessionReplies>, k: nat, c: nat, i: nat)
    requires IsLonePair(ss, k, c) && Connected(LinkedPairs(ss), k, i)
    ensures i == k || i == c
  {
    var pairs := LinkedPairs(ss);
    LinkedPairsAre(ss);
    JoinedMeansLinked(ss, k, c);
    var inPair := seq(|ss|, m => m == k || m == c);
    forall m | 0 <= m < |pairs| ensures inPair[pairs[m].0] == inPair[pairs[m].1] {
      var (a, b) := pairs[m];
      assert Joined(pairs, a, b) && Joined(pairs, b, a);
    }
    var path :| Links(pairs, path, k, i);
    ChainKeeps(pairs, |ss|, inPair, path);
  }

  lemma TwoFirsts(ss: seq<SessionReplies>, i: nat, j: nat)
    requires i < |ss| && j < |ss| && ComesFirst(ss, i, j) && ComesFirst(ss, j, i)
    ensures i == j
  {
  }

  /** The partner branch agrees with the minimum: a kept session of a lone pair is the first holder. */
  lemma PartnerIsFirstHolder(ss: seq<SessionReplies>, keptOf: map<nat, nat>, i: nat, mark: string, k: nat)
    requires IsKeptOf(ss, keptOf) && k in keptOf
    requires i < |ss| && HoldsMark(ss[i], mark) && IsHolder(ss, i, mark, k)
    ensures FirstHolder(ss, i, mark) == k
  {
    var pairs := LinkedPairs(ss);
    forall j: nat | j < |ss| && IsHolder(ss, i, mark, j) ensures ComesFirst(ss, k, j) {
      ConnectedBackwards(pairs, i, k);
      ConnectedThrough(pairs, k, i, j);
      LonePairIsAGroup(ss, k, keptOf[k], j);
    }
    assert IsFirstHolder(ss, i, mark, k);
  }

  /** The earliest of `holders`, ties to the lower row id, then to the lower index. */
  method EarliestOf(ss: seq<SessionReplies>, holders: set<nat>) returns (k: nat)
    requires holders != {} && forall i | i in holders :: i < |ss|
    ensures k in holders && forall j | j in holders :: ComesFirst(ss, k, j)
  {
    k := 0;
    var found := false;
    for i := 0 to |ss|
      invariant found ==> k < i && k in holders
      invariant forall j | j in holders && j < i :: found && ComesFirst(ss, k, j)
    {
      if i in holders && (!found || !EarlierOrSame(ss[k], ss[i])) {
        k, found := i, true;
      }
    }
  }

  /** The lowest holder that is kept by a lone pair, if there is one. */
  method PartnerAmong(ss: seq<SessionReplies>, keptOf: map<nat, nat>, holders: set<nat>) returns (found: bool, k: nat)
    requires forall i | i in holders :: i < |ss|
    ensures found ==> k in holders && k in keptOf
    ensures !found ==> forall i | i in holders :: i !in keptOf
  {
    found, k := false, 0;
    for i := 0 to |ss|
      invariant found ==> k in holders && k in keptOf
      invariant !found ==> forall j | j in holders && j < i :: j !in keptOf
    {
      if !found && i in holders && i in keptOf {
        found, k := true, i;
      }
    }
  }

  method LeastKeyIn(members: seq<Entry>, k: nat) returns (found: bool, key: string)
    ensures found <==> exists x :: 0 <= x < |members| && members[x].session == k
    ensures found ==> exists x :: 0 <= x < |members| && members[x].session == k && members[x].key == key
    ensures found ==> forall x | 0 <= x < |members| && members[x].session == k :: TextLe(key, members[x].key)
  {
    TextLeIsAnOrder();
    found, key := false, "";
    for x := 0 to |members|
      invariant found <==> exists y :: 0 <= y < x && members[y].session == k
      invariant found ==> exists y :: 0 <= y < x && members[y].session == k && members[y].key == key
      invariant found ==> forall y | 0 <= y < x && members[y].session == k :: TextLe(key, members[y].key)
    {
      if members[x].session == k && (!found || !TextLe(key, members[x].key)) {
        found, key := true, members[x].key;
      }
    }
  }

  /** A holder of the group's fingerprint is a session with a member, and back. */
  lemma HoldersAreMembers(ss: seq<SessionReplies>, members: seq<Entry>, mark: string, x: nat, k: nat)
    requires IsWholeGroup(ss, members, mark) && x < |members|
    ensures IsHolder(ss, members[x].session, mark, k) <==> exists z :: 0 <= z < |members| && members[z].session == k
  {
    if IsHolder(ss, members[x].session, mark, k) {
      var p :| 0 <= p < |ss[k].replies| && ss[k].replies[p].mark == mark;
      var r := ss[k].replies[p];
      assert r == Reply(r.key, mark) && r in ss[k].replies;
      assert IsEntry(ss, Entry(k, r.key, mark));
      assert Entry(k, r.key, mark) in members;
    }
    if z :| 0 <= z < |members| && members[z].session == k {
      assert IsEntry(ss, members[z]) && members[z] in members;
      EntryHolds(ss, members[z]);
    }
  }

  lemma MembersShareFirstHolder(ss: seq<SessionReplies>, members: seq<Entry>, mark: string, x: nat, y: nat)
    requires IsWholeGroup(ss, members, mark) && x < |members| && y < |members|
    ensures HoldsMark(ss[members[x].session], mark) && HoldsMark(ss[members[y].session], mark)
    ensures FirstHolder(ss, members[x].session, mark) == FirstHolder(ss, members[y].session, mark)
    ensures exists z :: 0 <= z < |members| && members[z].session == FirstHolder(ss, members[x].session, mark)
  {
    EntryHolds(ss, members[x]);
    EntryHolds(ss, members[y]);
    assert members[y] in members;
    FirstHolderOfGroup(ss, members[x].session, members[y].session, mark);
    HoldersAreMembers(ss, members, mark, x, FirstHolder(ss, members[x].session, mark));
  }

  lemma LeastKeyFound(ss: seq<SessionReplies>, members: seq<Entry>, mark: string, k: nat, key: string)
    requires IsWholeGroup(ss, members, mark)
    requires exists x :: 0 <= x < |members| && members[x].session == k && members[x].key == key
    requires forall x | 0 <= x < |members| && members[x].session == k :: TextLe(key, members[x].key)
    ensures k < |ss| && HoldsMark(ss[k], mark) && LeastKey(ss[k], mark) == key
  {
    var at :| 0 <= at < |members| && members[at].session == k && members[at].key == key;
    assert IsEntry(ss, members[at]);
    EntryHolds(ss, members[at]);
    ConnectedToItself(LinkedPairs(ss), k);
    forall r | r in ss[k].replies && r.mark == mark ensures TextLe(key, r.key) {
      assert r == Reply(r.key, mark);
      assert IsEntry(ss, Entry(k, r.key, mark));
      assert Entry(k, r.key, mark) in members;
    }
    LeastKeyIs(ss[k], mark, key);
  }

  /** The kept session of a group of two holders or more. */
  method KeptSession(ss: seq<SessionReplies>, keptOf: map<nat, nat>, members: seq<Entry>,
                     holders: set<nat>, ghost mark: string)
    returns (k: nat)
    requires IsKeptOf(ss, keptOf) && IsWholeGroup(ss, members, mark) && members != []
    requires forall i :: i in holders <==> exists x :: 0 <= x < |members| && members[x].session == i
    ensures forall x | 0 <= x < |members| ::
              HoldsMark(ss[members[x].session], mark) && FirstHolder(ss, members[x].session, mark) == k
  {
    ghost var i := members[0].session;
    assert i in holders;
    forall j: nat ensures IsHolder(ss, i, mark, j) <==> j in holders {
      HoldersAreMembers(ss, members, mark, 0, j);
    }
    var isPartner, partner := PartnerAmong(ss, keptOf, holders);
    EntryHolds(ss, members[0]);
    if isPartner {
      k := partner;
      PartnerIsFirstHolder(ss, keptOf, i, mark, k);
    } else {
      k := EarliestOf(ss, holders);
      FirstHolderIs(ss, i, mark, k);
    }
    forall x | 0 <= x < |members|
      ensures HoldsMark(ss[members[x].session], mark) && FirstHolder(ss, members[x].session, mark) == k
    {
      MembersShareFirstHolder(ss, members, mark, 0, x);
    }
  }

  lemma {:induction false} OneHolderDropsNothing(ss: seq<SessionReplies>, whole: seq<Entry>, mark: string, n: nat)
    requires IsWholeGroup(ss, whole, mark) && n <= |whole|
    requires forall x, y | 0 <= x < |whole| && 0 <= y < |whole| :: whole[x].session == whole[y].session
    ensures DropsAmong(ss, whole[..n]) == []
  {
    if n > 0 {
      OneHolderDropsNothing(ss, whole, mark, n - 1);
      assert whole[..n][..n - 1] == whole[..n - 1];
      MembersShareFirstHolder(ss, whole, mark, n - 1, n - 1);
    }
  }

  /** Pushes a pair for every reply that is not the kept session's. */
  method PushCopies(ss: seq<SessionReplies>, members: seq<Entry>, kept: nat, keptKey: string, ghost mark: string)
    returns (copies: seq<(string, string)>)
    requires IsWholeGroup(ss, members, mark)
    requires kept < |ss| && HoldsMark(ss[kept], mark) && LeastKey(ss[kept], mark) == keptKey
    requires forall x | 0 <= x < |members| ::
               HoldsMark(ss[members[x].session], mark) && FirstHolder(ss, members[x].session, mark) == kept
    ensures copies == DropsAmong(ss, members)
  {
    copies := [];
    for x := 0 to |members|
      invariant copies == DropsAmong(ss, members[..x])
    {
      assert members[..x + 1][..x] == members[..x];
      var e := members[x];
      if e.session != kept {
        copies := copies + [(e.key, keptKey)];
      }
    }
    assert members[..|members|] == members;
  }

  /** The pairs one group's replies give. */
  method CopiesOfGroup(ss: seq<SessionReplies>, keptOf: map<nat, nat>, members: seq<Entry>, ghost mark: string)
    returns (copies: seq<(string, string)>)
    requires IsKeptOf(ss, keptOf) && IsWholeGroup(ss, members, mark) && members != []
    ensures copies == DropsAmong(ss, members)
  {
    var holders := set x | 0 <= x < |members| :: members[x].session;
    if |holders| < 2 {
      OneHolder(holders);
      forall x, y | 0 <= x < |members| && 0 <= y < |members| ensures members[x].session == members[y].session {
        assert members[x].session in holders && members[y].session in holders;
      }
      OneHolderDropsNothing(ss, members, mark, |members|);
      assert members[..|members|] == members;
      return [];
    }
    var kept := KeptSession(ss, keptOf, members, holders, mark);
    var found, keptKey := LeastKeyIn(members, kept);
    MembersShareFirstHolder(ss, members, mark, 0, 0);
    if !found {
      assert false;
    }
    LeastKeyFound(ss, members, mark, kept, keptKey);
    copies := PushCopies(ss, members, kept, keptKey, mark);
  }

  // ----- the groups together give the rule

  /** The pairs of the replies in the groups `done`. */
  ghost function DropsDone(ss: seq<SessionReplies>, es: seq<Entry>, roots: seq<nat>, live: seq<bool>, done: set<Group>)
    : seq<(string, string)>
    requires AreEntries(ss, es) && |ss| == |roots| == |live|
  {
    if es == [] then []
    else
      var e := es[|es| - 1];
      DropsDone(ss, es[..|es| - 1], roots, live, done) +
      if InGroups(e, roots, live, done) then DropOf(ss, e) else []
  }

  lemma MembersAreEntries(ss: seq<SessionReplies>, es: seq<Entry>, roots: seq<nat>, live: seq<bool>, g: Group)
    requires AreEntries(ss, es) && |ss| == |roots| == |live|
    ensures AreEntries(ss, Members(es, roots, live, g))
  {
    var members := Members(es, roots, live, g);
    forall x | 0 <= x < |members| ensures IsEntry(ss, members[x]) {
      assert members[x] in members;
      MembersAre(es, roots, live, g, members[x]);
    }
  }

  /** One more group adds exactly its own pairs. */
  lemma {:induction false} OneMoreGroup(ss: seq<SessionReplies>, es: seq<Entry>, roots: seq<nat>, live: seq<bool>,
                                        done: set<Group>, g: Group)
    requires AreEntries(ss, es) && |ss| == |roots| == |live| && g !in done
    ensures AreEntries(ss, Members(es, roots, live, g))
    ensures multiset(DropsDone(ss, es, roots, live, done + {g})) ==
            multiset(DropsDone(ss, es, roots, live, done)) + multiset(DropsAmong(ss, Members(es, roots, live, g)))
  {
    hide DropOf;
    MembersAreEntries(ss, es, roots, live, g);
    if es != [] {
      var init, e := es[..|es| - 1], es[|es| - 1];
      OneMoreGroup(ss, init, roots, live, done, g);
      var before, after := Members(init, roots, live, g), Members(es, roots, live, g);
      if InGroups(e, roots, live, {g}) {
        assert after[..|after| - 1] == before;
      } else {
        assert after == before;
      }
    }
  }

  lemma {:induction false} NoGroupsNoDrops(ss: seq<SessionReplies>, es: seq<Entry>, roots: seq<nat>, live: seq<bool>)
    requires AreEntries(ss, es) && |ss| == |roots| == |live|
    ensures DropsDone(ss, es, roots, live, {}) == []
  {
    if es != [] {
      NoGroupsNoDrops(ss, es[..|es| - 1], roots, live);
    }
  }

  lemma UntouchedDropsNothing(ss: seq<SessionReplies>, e: Entry)
    requires IsEntry(ss, e) && Touches(LinkedPairs(ss), e.session) == 0
    ensures DropOf(ss, e) == []
  {
    EntryHolds(ss, e);
    UntouchedIsAlone(ss, e.session, FirstHolder(ss, e.session, e.mark));
  }

  ghost predicate AreDegrees(ss: seq<SessionReplies>, degree: seq<nat>) {
    |degree| == |ss| && forall i | 0 <= i < |ss| :: degree[i] == Touches(LinkedPairs(ss), i)
  }

  lemma {:induction false} AllGroupsAllDrops(ss: seq<SessionReplies>, es: seq<Entry>, roots: seq<nat>, degree: seq<nat>,
                                             done: set<Group>)
    requires AreEntries(ss, es) && |ss| == |roots| && AreDegrees(ss, degree)
    requires forall x | 0 <= x < |es| && Live(degree)[es[x].session] :: (roots[es[x].session], es[x].mark) in done
    ensures DropsDone(ss, es, roots, Live(degree), done) == DropsAmong(ss, es)
  {
    if es != [] {
      var init, e := es[..|es| - 1], es[|es| - 1];
      AllGroupsAllDrops(ss, init, roots, degree, done);
      if !Live(degree)[e.session] {
        UntouchedDropsNothing(ss, e);
      }
    }
  }

  lemma LiveAcrossGroup(ss: seq<SessionReplies>, i: nat, j: nat)
    requires Connected(LinkedPairs(ss), i, j) && Touches(LinkedPairs(ss), i) > 0
    ensures Touches(LinkedPairs(ss), j) > 0
  {
    if Touches(LinkedPairs(ss), j) == 0 {
      ConnectedBackwards(LinkedPairs(ss), i, j);
      UntouchedIsAlone(ss, j, i);
    }
  }

  /** What is filed under one representative and fingerprint is a whole group. */
  lemma FiledIsWholeGroup(ss: seq<SessionReplies>, parent: seq<nat>, roots: seq<nat>, degree: seq<nat>, g: Group)
    requires |ss| == |parent| && AreRootsOf(roots, parent) && AreDegrees(ss, degree)
    requires IsPartition(parent, LinkedPairs(ss))
    ensures IsWholeGroup(ss, Members(AllEntries(ss), roots, Live(degree), g), g.1)
  {
    var es, live := AllEntries(ss), Live(degree);
    var members := Members(es, roots, live, g);
    MembersAreEntries(ss, es, roots, live, g);
    forall x | 0 <= x < |members|
      ensures members[x].mark == g.1 && live[members[x].session] && roots[members[x].session] == g.0
    {
      assert members[x] in members;
      MembersAre(es, roots, live, g, members[x]);
    }
    forall x, e: Entry | 0 <= x < |members| && IsEntry(ss, e) && e.mark == g.1
      ensures e in members <==> Connected(LinkedPairs(ss), members[x].session, e.session)
    {
      MembersAre(es, roots, live, g, e);
      AllEntriesAre(ss, e);
      assert Root(parent, members[x].session) == g.0;
      if Connected(LinkedPairs(ss), members[x].session, e.session) {
        LiveAcrossGroup(ss, members[x].session, e.session);
      }
    }
  }

  lemma EveryGroupFiled(ss: seq<SessionReplies>, groups: Groups, roots: seq<nat>, degree: seq<nat>)
    requires |ss| == |roots| && AreDegrees(ss, degree)
    requires IsGrouping(groups, AllEntries(ss), roots, Live(degree))
    ensures DropsDone(ss, AllEntries(ss), roots, Live(degree), groups.Keys) == Drops(ss)
  {
    var es, live := AllEntries(ss), Live(degree);
    forall x | 0 <= x < |es| && live[es[x].session] ensures (roots[es[x].session], es[x].mark) in groups.Keys {
      var g := (roots[es[x].session], es[x].mark);
      MembersAre(es, roots, live, g, es[x]);
      assert Members(es, roots, live, g) != [];
    }
    AllGroupsAllDrops(ss, es, roots, degree, groups.Keys);
  }

  lemma NextGroup(ss: seq<SessionReplies>, groups: Groups, parent: seq<nat>, roots: seq<nat>, degree: seq<nat>,
                  done: set<Group>, g: Group)
    requires AreDegrees(ss, degree) && g in groups && g !in done
    requires |ss| == |parent| && AreRootsOf(roots, parent) && IsPartition(parent, LinkedPairs(ss))
    requires IsGrouping(groups, AllEntries(ss), roots, Live(degree))
    ensures IsWholeGroup(ss, groups[g], g.1)
    ensures multiset(DropsDone(ss, AllEntries(ss), roots, Live(degree), done + {g})) ==
            multiset(DropsDone(ss, AllEntries(ss), roots, Live(degree), done)) + multiset(DropsAmong(ss, groups[g]))
  {
    assert Members(AllEntries(ss), roots, Live(degree), g) == groups[g];
    FiledIsWholeGroup(ss, parent, roots, degree, g);
    OneMoreGroup(ss, AllEntries(ss), roots, Live(degree), done, g);
  }

  /** The pairs of every group, in whatever order the groups are taken. */
  method CopiesOfGroups(ss: seq<SessionReplies>, keptOf: map<nat, nat>, groups: Groups,
                        ghost parent: seq<nat>, ghost roots: seq<nat>, ghost degree: seq<nat>)
    returns (copies: seq<(string, string)>)
    requires IsKeptOf(ss, keptOf) && AreDegrees(ss, degree)
    requires |ss| == |parent| && AreRootsOf(roots, parent) && IsPartition(parent, LinkedPairs(ss))
    requires IsGrouping(groups, AllEntries(ss), roots, Live(degree))
    ensures multiset(copies) == multiset(Drops(ss))
  {
    hide DropsDone, DropOf, Members, IsKeptOf, IsPartition;
    ghost var es, live := AllEntries(ss), Live(degree);
    copies := [];
    var left := groups.Keys;
    NoGroupsNoDrops(ss, es, roots, live);
    assert groups.Keys - left == {};
    while left != {}
      invariant left <= groups.Keys
      invariant multiset(copies) == multiset(DropsDone(ss, es, roots, live, groups.Keys - left))
      decreases left
    {
      var g: Group :| g in left;
      ghost var done := groups.Keys - left;
      NextGroup(ss, groups, parent, roots, degree, done, g);
      left := left - {g};
      assert groups.Keys - left == done + {g};
      if groups[g] != [] {
        var more := CopiesOfGroup(ss, keptOf, groups[g], g.1);
        copies := copies + more;
      }
    }
    assert groups.Keys - left == groups.Keys;
    EveryGroupFiled(ss, groups, roots, degree);
  }

  lemma SameSort(a: seq<(string, string)>, b: seq<(string, string)>)
    requires multiset(a) == multiset(b)
    ensures SortBy(a, PairLe) == SortBy(b, PairLe)
  {
    PairLeIsAnOrder();
    SortBySorts(a, PairLe);
    SortBySorts(b, PairLe);
    SortedIsUnique(SortBy(a, PairLe), SortBy(b, PairLe), PairLe);
  }

  /** The replies to count once, sorted: exactly those the rule drops. */
  method RepliesCountedOnce(ss: seq<SessionReplies>, pairs: seq<(nat, nat)>, degree: seq<nat>, keptOf: map<nat, nat>)
    returns (replyCopies: seq<(string, string)>)
    requires pairs == LinkedPairs(ss) && AreDegrees(ss, degree) && IsKeptOf(ss, keptOf)
    ensures replyCopies == SortBy(Drops(ss), PairLe)
  {
    LinkedPairsAre(ss);
    var parent := UnionAll(|ss|, pairs);
    ghost var before := parent[..];
    ghost var roots := seq(|ss|, i requires 0 <= i < |ss| => Root(before, i));
    var groups := GroupReplies(ss, parent, degree, roots);
    var copies := CopiesOfGroups(ss, keptOf, groups, before, roots, degree);
    SameSort(copies, Drops(ss));
    replyCopies := SortBy(copies, PairLe);
  }
}
