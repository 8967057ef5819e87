/** What the search for copies answers, said of the sessions' links, starts, rows and replies themselves. */
module CopiesExactly {
  import opened CountedOnce
  import opened LinkOrder
  import opened Orders
  import opened Sequences
  import opened SessionCopies
  import opened SessionLinks
  import opened UnionFind

  /** `i` started before `j`, or at the same time in a lower row, or so in the same row at a lower position. */
  ghost predicate StartsFirst(ss: seq<SessionReplies>, i: nat, j: nat)
    requires i < |ss| && j < |ss|
  {
    || ss[i].firstAt < ss[j].firstAt
    || (ss[i].firstAt == ss[j].firstAt && ss[i].indexed < ss[j].indexed)
    || (ss[i].firstAt == ss[j].firstAt && ss[i].indexed == ss[j].indexed && i < j)
  }

  lemma ComesFirstIsStartsFirst(ss: seq<SessionReplies>, i: nat, j: nat)
    requires i < |ss| && j < |ss| && i != j
    ensures ComesFirst(ss, i, j) <==> StartsFirst(ss, i, j)
  {
  }

  // ----- the links

  /** `j` is the one session linked to `i`. */
  ghost predicate IsOnlyLink(ss: seq<SessionReplies>, i: nat, j: nat)
    requires i < |ss| && j < |ss|
  {
    AreLinked(ss[i], ss[j]) && forall k: nat | k < |ss| && k != i && AreLinked(ss[i], ss[k]) :: k == j
  }

  /** What is said of the linked sessions `i` and `j`: each the other's only link, the later is a copy of the earlier;
      else they may be the same, the smaller id first. */
  ghost predicate Says(ss: seq<SessionReplies>, i: nat, j: nat, link: CopyLink) {
    && i < |ss| && j < |ss| && i != j && AreLinked(ss[i], ss[j])
    && if IsOnlyLink(ss, i, j) && IsOnlyLink(ss, j, i)
       then StartsFirst(ss, i, j) && link == CopyOf(ss[j].sessionId, ss[i].sessionId)
       else TextLe(ss[i].sessionId, ss[j].sessionId) && link == MaybeSame(ss[i].sessionId, ss[j].sessionId)
  }

  lemma LonePairIs(ss: seq<SessionReplies>, i: nat, j: nat)
    requires i < |ss| && j < |ss| && i != j
    ensures IsLonePair(ss, i, j) <==> IsOnlyLink(ss, i, j) && IsOnlyLink(ss, j, i)
    ensures (i, j) in LinkedPairs(ss) || (j, i) in LinkedPairs(ss) <==> AreLinked(ss[i], ss[j])
  {
    hide LinkedPairs, AreLinked;
    forall k: nat, m: nat ensures Joined(LinkedPairs(ss), k, m) <==> k != m && k < |ss| && m < |ss| && AreLinked(ss[k], ss[m]) {
      JoinedMeansLinked(ss, k, m);
    }
    AreLinkedIsSymmetric(ss[i], ss[j]);
  }

  lemma LinkSays(ss: seq<SessionReplies>, i: nat, j: nat)
    requires i < j < |ss| && (i, j) in LinkedPairs(ss)
    ensures var link := AsLink(LinkOf(ss, i, j)); Says(ss, i, j, link) || Says(ss, j, i, link)
  {
    hide LinkedPairs, AreLinked, IsLonePair, IsOnlyLink;
    LonePairIs(ss, i, j);
    AreLinkedIsSymmetric(ss[i], ss[j]);
    ComesFirstIsStartsFirst(ss, i, j);
    ComesFirstIsStartsFirst(ss, j, i);
    TextLeTotal(ss[i].sessionId, ss[j].sessionId);
  }

  lemma SaidIsALink(ss: seq<SessionReplies>, i: nat, j: nat, link: CopyLink)
    requires Says(ss, i, j, link)
    ensures link in CopiesOf(ss).links
  {
    hide LinkedPairs, AreLinked, IsLonePair, IsOnlyLink, CopiesOf;
    LinkedPairsAre(ss);
    LonePairIs(ss, i, j);
    var (low, high) := if i < j then (i, j) else (j, i);
    AreLinkedIsSymmetric(ss[i], ss[j]);
    assert (low, high) in LinkedPairs(ss);
    LoneBothWays(ss, i, j);
    ComesFirstIsStartsFirst(ss, i, j);
    ComesFirstIsStartsFirst(ss, j, i);
    TextLeTotal(ss[i].sessionId, ss[j].sessionId);
    assert AsLink(LinkOf(ss, low, high)) == link;
    RawLinkHasAPlace(ss, (low, high), LinkOf(ss, low, high));
  }

  /** The links are exactly what is said of every two linked sessions. */
  lemma LinksExactly(ss: seq<SessionReplies>, link: CopyLink)
    ensures link in CopiesOf(ss).links <==> exists i, j :: Says(ss, i, j, link)
  {
    hide Says;
    if link in CopiesOf(ss).links {
      var sorted := SortBy(RawLinks(ss), TripleLe);
      var x :| 0 <= x < |sorted| && AsLink(sorted[x]) == link;
      assert sorted[x] in multiset(sorted);
      var i, j := RawLinkOfPair(ss, sorted[x]);
      LinkSays(ss, i, j);
    }
    hide CopiesOf;
    if i: nat, j: nat :| Says(ss, i, j, link) {
      SaidIsALink(ss, i, j, link);
    }
  }

  /** The links are in the order of the names they say first, then of those they say second; of two that say the
      same names a doubtful one is first. */
  lemma LinksAreInOrder(ss: seq<SessionReplies>, x: nat, y: nat)
    requires x < y < |CopiesOf(ss).links|
    ensures var (a, b) := (Names(CopiesOf(ss).links[x]), Names(CopiesOf(ss).links[y]));
            && TextLe(a.0, b.0) && (a.0 == b.0 ==> TextLe(a.1, b.1))
            && (a == b && CopiesOf(ss).links[x].CopyOf? ==> CopiesOf(ss).links[y].CopyOf?)
  {
    hide RawLinks, TextLe;
    TripleLeIsAnOrder();
    TextLeIsAnOrder();
    SortBySorts(RawLinks(ss), TripleLe);
    var sorted := SortBy(RawLinks(ss), TripleLe);
    assert TripleLe(sorted[x], sorted[y]);
  }

  function Names(link: CopyLink): (string, string) {
    match link
    case CopyOf(copy, of) => (copy, of)
    case MaybeSame(first, second) => (first, second)
  }

  // ----- the dropped replies

  /** Some reply of the session has the fingerprint. */
  ghost predicate Has(s: SessionReplies, mark: string) {
    exists key :: Reply(key, mark) in s.replies
  }

  /** `k` starts first of the sessions that a chain of links joins to `i` and that have the fingerprint. */
  ghost predicate IsEarliest(ss: seq<SessionReplies>, i: nat, mark: string, k: nat) {
    && k < |ss| && Connected(LinkedPairs(ss), i, k) && Has(ss[k], mark)
    && forall j: nat | j < |ss| && j != k && Connected(LinkedPairs(ss), i, j) && Has(ss[j], mark) :: StartsFirst(ss, k, j)
  }

  /** Session `i`'s reply is dropped for session `k`'s. */
  ghost predicate IsDroppedFor(ss: seq<SessionReplies>, i: nat, k: nat, mark: string, copied: string, kept: string) {
    && i < |ss| && i != k && Reply(copied, mark) in ss[i].replies && IsEarliest(ss, i, mark, k)
    && Reply(kept, mark) in ss[k].replies
    && forall key | Reply(key, mark) in ss[k].replies :: TextLe(kept, key)
  }

  lemma HasIsHolds(s: SessionReplies, mark: string)
    ensures Has(s, mark) <==> HoldsMark(s, mark)
  {
    if p :| 0 <= p < |s.replies| && s.replies[p].mark == mark {
      assert s.replies[p] == Reply(s.replies[p].key, mark);
    }
  }

  lemma EarliestIsFirstHolder(ss: seq<SessionReplies>, i: nat, mark: string, k: nat)
    requires i < |ss|
    ensures IsEarliest(ss, i, mark, k) <==> IsFirstHolder(ss, i, mark, k)
  {
    hide LinkedPairs, Connected, Has, HoldsMark, ComesFirst, StartsFirst;
    forall j: nat | j < |ss| ensures Has(ss[j], mark) <==> HoldsMark(ss[j], mark) {
      HasIsHolds(ss[j], mark);
    }
    if k < |ss| {
      forall j: nat | j < |ss| ensures if j == k then ComesFirst(ss, k, j) else ComesFirst(ss, k, j) <==> StartsFirst(ss, k, j) {
        if j == k { ItselfComesFirst(ss, k); } else { ComesFirstIsStartsFirst(ss, k, j); }
      }
    }
  }

  lemma ItselfComesFirst(ss: seq<SessionReplies>, k: nat)
    requires k < |ss|
    ensures ComesFirst(ss, k, k)
  {
  }

  lemma LeastKeyIsKept(s: SessionReplies, mark: string, kept: string)
    requires HoldsMark(s, mark)
    ensures kept == LeastKey(s, mark) <==>
            Reply(kept, mark) in s.replies && forall key | Reply(key, mark) in s.replies :: TextLe(kept, key)
  {
    hide TextLe;
    if Reply(kept, mark) in s.replies && forall key | Reply(key, mark) in s.replies :: TextLe(kept, key) {
      forall r | r in s.replies && r.mark == mark ensures TextLe(kept, r.key) {
        assert r == Reply(r.key, mark);
      }
      LeastKeyIs(s, mark, kept);
    }
  }

  lemma DropIsSaid(ss: seq<SessionReplies>, e: Entry, copied: string, kept: string)
    ensures DropSays(ss, e, (copied, kept)) <==>
            e.key == copied && exists k :: IsDroppedFor(ss, e.session, k, e.mark, copied, kept)
  {
    hide IsEarliest, IsFirstHolder, TextLe;
    if e.session < |ss| && Reply(e.key, e.mark) in ss[e.session].replies {
      EntryHolds(ss, e);
      var first := FirstHolder(ss, e.session, e.mark);
      EarliestIsFirstHolder(ss, e.session, e.mark, first);
      FirstHolderHas(ss, e.session, e.mark);
      LeastKeyIsKept(ss[first], e.mark, kept);
      if k :| IsDroppedFor(ss, e.session, k, e.mark, copied, kept) {
        EarliestIsFirstHolder(ss, e.session, e.mark, k);
        FirstHolderIs(ss, e.session, e.mark, k);
      }
      hide HoldsMark, FirstHolder, LeastKey;
      assert first != e.session && e.key == copied && kept == LeastKey(ss[first], e.mark) ==>
          IsDroppedFor(ss, e.session, first, e.mark, copied, kept);
    }
  }

  lemma FirstHolderHas(ss: seq<SessionReplies>, i: nat, mark: string)
    requires i < |ss| && HoldsMark(ss[i], mark)
    ensures FirstHolder(ss, i, mark) < |ss| && HoldsMark(ss[FirstHolder(ss, i, mark)], mark)
  {
  }

  /** A pair of keys is answered exactly when the first is of a reply whose fingerprint an earlier-starting session of
      its group has, and the second is the least key of the earliest of all those. */
  lemma ReplyCopiesExactly(ss: seq<SessionReplies>, copied: string, kept: string)
    ensures (copied, kept) in CopiesOf(ss).replyCopies <==>
            exists i, k, mark :: IsDroppedFor(ss, i, k, mark, copied, kept)
  {
    hide CopiesOf, DropSays, IsEarliest;
    ReplyCopiesAre(ss, (copied, kept));
    if e :| DropSays(ss, e, (copied, kept)) {
      DropIsSaid(ss, e, copied, kept);
    }
    if i, k, mark :| IsDroppedFor(ss, i, k, mark, copied, kept) {
      DropIsSaid(ss, Entry(i, copied, mark), copied, kept);
    }
  }

  /** The pairs are in the order of the copied keys, then of the kept ones. */
  lemma ReplyCopiesAreInOrder(ss: seq<SessionReplies>, x: nat, y: nat)
    requires x < y < |CopiesOf(ss).replyCopies|
    ensures var (a, b) := (CopiesOf(ss).replyCopies[x], CopiesOf(ss).replyCopies[y]);
            TextLe(a.0, b.0) && (a.0 == b.0 ==> TextLe(a.1, b.1))
  {
    hide RawLinks, Drops, TextLe;
    PairLeIsAnOrder();
    TextLeIsAnOrder();
    SortBySorts(Drops(ss), PairLe);
    var sorted := SortBy(Drops(ss), PairLe);
    assert PairLe(sorted[x], sorted[y]);
  }
}
