/** The whole search for copied sessions: its links and its dropped replies are those of a rule over all pairs. */
module SessionCopies {
  import opened Orders
  import opened Sequences
  import opened UnionFind
  import opened SessionLinks
  import opened CountedOnce

  datatype CopyLink =
    | CopyOf(copy: string, of: string)
    | MaybeSame(first: string, second: string)

  datatype Copies = Copies(links: seq<CopyLink>, replyCopies: seq<(string, string)>)

  type RawLink = (string, string, bool)

  function AsLink(raw: RawLink): CopyLink {
    if raw.2 then CopyOf(raw.0, raw.1) else MaybeSame(raw.0, raw.1)
  }

  function AsLinks(raw: seq<RawLink>): (links: seq<CopyLink>)
    ensures |links| == |raw|
  {
    seq(|raw|, x requires 0 <= x < |raw| => AsLink(raw[x]))
  }

  // ----- the rule

  /** What a linked pair says: a pair in no other link merges into its first; any other may be the same. */
  ghost function LinkOf(ss: seq<SessionReplies>, i: nat, j: nat): RawLink
    requires i < |ss| && j < |ss|
  {
    var (a, b) := (ss[i].sessionId, ss[j].sessionId);
    if IsLonePair(ss, i, j) then
      if ComesFirst(ss, i, j) then (b, a, true) else (a, b, true)
    else if TextLe(a, b) then (a, b, false)
    else (b, a, false)
  }

  ghost function RawLinks(ss: seq<SessionReplies>): seq<RawLink> {
    LinkedPairsAre(ss);
    var pairs := LinkedPairs(ss);
    seq(|pairs|, x requires 0 <= x < |pairs| => LinkOf(ss, pairs[x].0, pairs[x].1))
  }

  /** The links of every linked pair and the replies every group counts once, each in order. */
  ghost function CopiesOf(ss: seq<SessionReplies>): Copies {
    Copies(AsLinks(SortBy(RawLinks(ss), TripleLe)), SortBy(Drops(ss), PairLe))
  }

  // ----- the source

  ghost predicate IsKeptSoFar(ss: seq<SessionReplies>, pairs: seq<(nat, nat)>, m: nat, keptOf: map<nat, nat>)
    requires InRange(pairs, |ss|) && m <= |pairs|
  {
    && (forall k | k in keptOf ::
          k < |ss| && keptOf[k] < |ss| && IsLonePair(ss, k, keptOf[k]) && ComesFirst(ss, k, keptOf[k]))
    && (forall x | 0 <= x < m && IsLonePair(ss, pairs[x].0, pairs[x].1) ::
          (if ComesFirst(ss, pairs[x].0, pairs[x].1) then pairs[x].0 else pairs[x].1) in keptOf)
  }

  lemma KeptSoFarIsKeptOf(ss: seq<SessionReplies>, keptOf: map<nat, nat>)
    requires InRange(LinkedPairs(ss), |ss|)
    requires IsKeptSoFar(ss, LinkedPairs(ss), |LinkedPairs(ss)|, keptOf)
    ensures IsKeptOf(ss, keptOf)
  {
    var pairs := LinkedPairs(ss);
    LinkedPairsAre(ss);
    forall i: nat, j: nat | i < |ss| && j < |ss| && IsLonePair(ss, i, j) && ComesFirst(ss, i, j)
      ensures i in keptOf
    {
      var x :| 0 <= x < |pairs| && (pairs[x] == (i, j) || pairs[x] == (j, i));
      assert IsLonePair(ss, j, i);
      JoinedMeansLinked(ss, i, j);
      if pairs[x] == (j, i) && ComesFirst(ss, j, i) {
        TwoFirsts(ss, i, j);
      }
    }
  }

  /** One pair's link, and who is kept when the pair merges. */
  method LinkPair(ss: seq<SessionReplies>, first: nat, second: nat, degree: seq<nat>)
    returns (link: RawLink, merges: bool, kept: nat, copy: nat)
    requires AreDegrees(ss, degree) && first < second < |ss| && Joined(LinkedPairs(ss), first, second)
    ensures link == LinkOf(ss, first, second) && (merges <==> IsLonePair(ss, first, second))
    ensures merges ==> {kept, copy} == {first, second} && IsLonePair(ss, kept, copy) && ComesFirst(ss, kept, copy)
    ensures merges ==> kept == if ComesFirst(ss, first, second) then first else second
  {
    var a, b := ss[first], ss[second];
    LonePairByDegree(ss, first, second);
    kept, copy := first, second;
    merges := degree[first] == 1 && degree[second] == 1;
    if merges {
      var aIsKept := EarlierOrSame(a, b);
      if !aIsKept {
        kept, copy := second, first;
      }
      link := (ss[copy].sessionId, ss[kept].sessionId, true);
    } else {
      var (low, high) :=
        if TextLe(a.sessionId, b.sessionId) then (a.sessionId, b.sessionId) else (b.sessionId, a.sessionId);
      link := (low, high, false);
    }
  }

  lemma KeptOneMore(ss: seq<SessionReplies>, pairs: seq<(nat, nat)>, m: nat, keptOf: map<nat, nat>,
                    merges: bool, kept: nat, copy: nat)
    requires InRange(pairs, |ss|) && m < |pairs| && IsKeptSoFar(ss, pairs, m, keptOf)
    requires merges <==> IsLonePair(ss, pairs[m].0, pairs[m].1)
    requires merges ==> kept < |ss| && copy < |ss| && IsLonePair(ss, kept, copy) && ComesFirst(ss, kept, copy)
    requires merges ==> kept == if ComesFirst(ss, pairs[m].0, pairs[m].1) then pairs[m].0 else pairs[m].1
    ensures IsKeptSoFar(ss, pairs, m + 1, if merges then keptOf[kept := copy] else keptOf)
  {
  }

  method LinkPairs(ss: seq<SessionReplies>, pairs: seq<(nat, nat)>, degree: seq<nat>)
    returns (links: seq<RawLink>, keptOf: map<nat, nat>)
    requires pairs == LinkedPairs(ss) && AreDegrees(ss, degree)
    ensures links == RawLinks(ss) && IsKeptOf(ss, keptOf)
  {
    LinkedPairsAre(ss);
    links, keptOf := [], map[];
    for m := 0 to |pairs|
      invariant links == RawLinks(ss)[..m]
      invariant IsKeptSoFar(ss, pairs, m, keptOf)
    {
      var (first, second) := pairs[m];
      assert (first, second) in pairs;
      var link, merges, kept, copy := LinkPair(ss, first, second, degree);
      KeptOneMore(ss, pairs, m, keptOf, merges, kept, copy);
      if merges {
        keptOf := keptOf[kept := copy];
      }
      links := links + [link];
      assert RawLinks(ss)[..m + 1] == RawLinks(ss)[..m] + [RawLinks(ss)[m]];
    }
    KeptSoFarIsKeptOf(ss, keptOf);
  }

  /** Finds the copies: exactly the links and the reply copies the rule gives, for any sessions. */
  method CopiesAmong(ss: seq<SessionReplies>) returns (copies: Copies)
    ensures copies == CopiesOf(ss)
  {
    var pairs := FindPairs(ss);
    LinkedPairsAre(ss);
    forall m | 0 <= m < |pairs| ensures pairs[m].0 < pairs[m].1 {
      assert (pairs[m].0, pairs[m].1) in pairs;
    }
    var degree := CountDegrees(|ss|, pairs);
    var links, keptOf := LinkPairs(ss, pairs, degree[..]);
    var replyCopies := RepliesCountedOnce(ss, pairs, degree[..], keptOf);
    copies := Copies(AsLinks(SortBy(links, TripleLe)), replyCopies);
  }

  // ----- no session is merged twice

  ghost predicate HasDistinctIds(ss: seq<SessionReplies>) {
    forall i, j | 0 <= i < |ss| && 0 <= j < |ss| && ss[i].sessionId == ss[j].sessionId :: i == j
  }

  function LinkNames(link: CopyLink): set<string> {
    match link
    case CopyOf(copy, of) => {copy, of}
    case MaybeSame(first, second) => {first, second}
  }

  lemma RawLinkOfPair(ss: seq<SessionReplies>, raw: RawLink) returns (i: nat, j: nat)
    requires raw in RawLinks(ss)
    ensures (i, j) in LinkedPairs(ss) && i < j < |ss| && raw == LinkOf(ss, i, j)
  {
    LinkedPairsAre(ss);
    var x :| 0 <= x < |RawLinks(ss)| && RawLinks(ss)[x] == raw;
    i, j := LinkedPairs(ss)[x].0, LinkedPairs(ss)[x].1;
    assert (i, j) in LinkedPairs(ss);
  }

  /** A session in a merged pair is named by that pair's link alone. */
  lemma MergedPairIsAlone(ss: seq<SessionReplies>, a: RawLink, b: RawLink)
    requires HasDistinctIds(ss) && a in RawLinks(ss) && b in RawLinks(ss) && AsLink(a).CopyOf?
    requires LinkNames(AsLink(a)) * LinkNames(AsLink(b)) != {}
    ensures a == b
  {
    var i, j := RawLinkOfPair(ss, a);
    var k, m := RawLinkOfPair(ss, b);
    LinkNamesItsPair(ss, i, j);
    LinkNamesItsPair(ss, k, m);
    var name :| name in LinkNames(AsLink(a)) && name in LinkNames(AsLink(b));
    assert Joined(LinkedPairs(ss), k, m) && Joined(LinkedPairs(ss), m, k);
  }

  /** A link names the two sessions of its pair. */
  lemma LinkNamesItsPair(ss: seq<SessionReplies>, i: nat, j: nat)
    requires i < |ss| && j < |ss|
    ensures LinkNames(AsLink(LinkOf(ss, i, j))) == {ss[i].sessionId, ss[j].sessionId}
  {
  }

  lemma OneLinkOnePair(ss: seq<SessionReplies>, i: nat, j: nat, k: nat, m: nat)
    requires HasDistinctIds(ss) && i < j < |ss| && k < m < |ss| && LinkOf(ss, i, j) == LinkOf(ss, k, m)
    ensures i == k && j == m
  {
    var (a, b, c, d) := (ss[i].sessionId, ss[j].sessionId, ss[k].sessionId, ss[m].sessionId);
    LinkNamesItsPair(ss, i, j);
    LinkNamesItsPair(ss, k, m);
    assert a in {c, d} && b in {c, d};
  }

  lemma RawLinksHaveNoDuplicates(ss: seq<SessionReplies>)
    requires HasDistinctIds(ss)
    ensures HasNoDuplicates(RawLinks(ss))
  {
    var pairs, raw := LinkedPairs(ss), RawLinks(ss);
    LinkedPairsAre(ss);
    forall x, y | 0 <= x < y < |raw| ensures raw[x] != raw[y] {
      assert PairBefore(pairs[x], pairs[y]);
      assert (pairs[x].0, pairs[x].1) in pairs && (pairs[y].0, pairs[y].1) in pairs;
      if raw[x] == raw[y] {
        OneLinkOnePair(ss, pairs[x].0, pairs[x].1, pairs[y].0, pairs[y].1);
      }
    }
  }

  lemma SortedLinksAreAMatching(ss: seq<SessionReplies>, sorted: seq<RawLink>, x: nat, y: nat)
    requires HasDistinctIds(ss) && multiset(sorted) == multiset(RawLinks(ss)) && HasNoDuplicates(sorted)
    requires x < |sorted| && y < |sorted| && x != y && AsLink(sorted[x]).CopyOf?
    ensures LinkNames(AsLink(sorted[x])) !! LinkNames(AsLink(sorted[y]))
  {
    var a, b := sorted[x], sorted[y];
    assert a in multiset(RawLinks(ss)) && b in multiset(RawLinks(ss)) by {
      assert a in multiset(sorted) && b in multiset(sorted);
    }
    assert a != b by {
      assert sorted[if x < y then x else y] != sorted[if x < y then y else x];
    }
    if LinkNames(AsLink(a)) * LinkNames(AsLink(b)) != {} {
      MergedPairIsAlone(ss, a, b);
    }
  }

  /** The `CopyOf` links are a matching: no session one names is named by any other link. */
  lemma CopyLinksAreAMatching(ss: seq<SessionReplies>, x: nat, y: nat)
    requires HasDistinctIds(ss)
    requires x < |CopiesOf(ss).links| && y < |CopiesOf(ss).links| && x != y
    requires CopiesOf(ss).links[x].CopyOf?
    ensures LinkNames(CopiesOf(ss).links[x]) !! LinkNames(CopiesOf(ss).links[y])
  {
    var sorted := SortBy(RawLinks(ss), TripleLe);
    RawLinksHaveNoDuplicates(ss);
    SortKeepsNoDuplicates(RawLinks(ss), TripleLe);
    SortedLinksAreAMatching(ss, sorted, x, y);
  }

  // ----- every reply is counted once

  ghost predicate HasUniqueKeys(ss: seq<SessionReplies>) {
    forall i, p, j, q
      | 0 <= i < |ss| && 0 <= p < |ss[i].replies| && 0 <= j < |ss| && 0 <= q < |ss[j].replies|
        && ss[i].replies[p].key == ss[j].replies[q].key :: i == j && p == q
  }

  lemma UniqueKeysUniqueEntries(ss: seq<SessionReplies>, e: Entry, f: Entry)
    requires HasUniqueKeys(ss) && IsEntry(ss, e) && IsEntry(ss, f) && e.key == f.key
    ensures e == f
  {
    var p :| 0 <= p < |ss[e.session].replies| && ss[e.session].replies[p] == Reply(e.key, e.mark);
    var q :| 0 <= q < |ss[f.session].replies| && ss[f.session].replies[q] == Reply(f.key, f.mark);
  }

  ghost predicate DropSays(ss: seq<SessionReplies>, e: Entry, pair: (string, string)) {
    IsEntry(ss, e) && pair in DropOf(ss, e)
  }

  lemma {:induction false} DropsAmongAre(ss: seq<SessionReplies>, es: seq<Entry>, pair: (string, string))
    requires AreEntries(ss, es)
    ensures pair in DropsAmong(ss, es) <==> exists e :: e in es && DropSays(ss, e, pair)
  {
    hide DropOf;
    if es != [] {
      var init, last := es[..|es| - 1], es[|es| - 1];
      DropsAmongAre(ss, init, pair);
      assert es == init + [last];
      assert pair in DropsAmong(ss, es) <==> pair in DropsAmong(ss, init) || DropSays(ss, last, pair);
    }
  }

  /** A pair is answered exactly when some reply's drop says it. */
  lemma ReplyCopiesAre(ss: seq<SessionReplies>, pair: (string, string))
    ensures pair in CopiesOf(ss).replyCopies <==> exists e :: DropSays(ss, e, pair)
  {
    var es := AllEntries(ss);
    DropsAmongAre(ss, es, pair);
    assert pair in CopiesOf(ss).replyCopies <==> pair in multiset(Drops(ss));
    forall e | DropSays(ss, e, pair) ensures e in es {
      AllEntriesAre(ss, e);
    }
  }

  ghost predicate IsCopiedKey(ss: seq<SessionReplies>, key: string) {
    exists kept :: (key, kept) in CopiesOf(ss).replyCopies
  }

  lemma DropOfReply(ss: seq<SessionReplies>, e: Entry, pair: (string, string))
    requires DropSays(ss, e, pair)
    ensures HoldsMark(ss[e.session], e.mark)
    ensures var k := FirstHolder(ss, e.session, e.mark);
            k != e.session && pair == (e.key, LeastKey(ss[k], e.mark))
  {
    EntryHolds(ss, e);
  }

  lemma DroppedReplyIsCopied(ss: seq<SessionReplies>, e: Entry)
    requires IsEntry(ss, e) && HoldsMark(ss[e.session], e.mark)
    requires FirstHolder(ss, e.session, e.mark) != e.session
    ensures IsCopiedKey(ss, e.key)
  {
    var pair := (e.key, LeastKey(ss[FirstHolder(ss, e.session, e.mark)], e.mark));
    assert DropSays(ss, e, pair);
    ReplyCopiesAre(ss, pair);
  }

  lemma CopiedKeyIsDropped(ss: seq<SessionReplies>, e: Entry, kept: string)
    requires HasUniqueKeys(ss) && IsEntry(ss, e) && (e.key, kept) in CopiesOf(ss).replyCopies
    ensures DropSays(ss, e, (e.key, kept))
  {
    ReplyCopiesAre(ss, (e.key, kept));
    var f :| DropSays(ss, f, (e.key, kept));
    DropOfReply(ss, f, (e.key, kept));
    UniqueKeysUniqueEntries(ss, e, f);
  }

  /** Of a group's replies with one fingerprint, those left are exactly the first holder's. */
  lemma CountedOnceEach(ss: seq<SessionReplies>, i: nat, e: Entry)
    requires HasUniqueKeys(ss) && i < |ss| && HoldsMark(ss[i], e.mark)
    requires IsEntry(ss, e) && Connected(LinkedPairs(ss), i, e.session)
    ensures !IsCopiedKey(ss, e.key) <==> e.session == FirstHolder(ss, i, e.mark)
  {
    EntryHolds(ss, e);
    FirstHolderOfGroup(ss, i, e.session, e.mark);
    if e.session != FirstHolder(ss, i, e.mark) {
      DroppedReplyIsCopied(ss, e);
    } else if kept :| (e.key, kept) in CopiesOf(ss).replyCopies {
      CopiedKeyIsDropped(ss, e, kept);
      DropOfReply(ss, e, (e.key, kept));
    }
  }

  /** Each copied key has one kept key, a reply of the group's first holder with the same
      fingerprint, which is itself counted. */
  lemma KeptForEachCopy(ss: seq<SessionReplies>, copied: string, kept: string) returns (e: Entry, k: nat)
    requires HasUniqueKeys(ss) && (copied, kept) in CopiesOf(ss).replyCopies
    ensures IsEntry(ss, e) && e.key == copied
    ensures IsFirstHolder(ss, e.session, e.mark, k) && k != e.session && IsEntry(ss, Entry(k, kept, e.mark))
    ensures !IsCopiedKey(ss, kept)
    ensures forall other | (copied, other) in CopiesOf(ss).replyCopies :: other == kept
  {
    ReplyCopiesAre(ss, (copied, kept));
    e :| DropSays(ss, e, (copied, kept));
    DropOfReply(ss, e, (copied, kept));
    k := FirstHolder(ss, e.session, e.mark);
    var f := Entry(k, kept, e.mark);
    assert IsEntry(ss, f);
    CountedOnceEach(ss, e.session, f);
    forall other | (copied, other) in CopiesOf(ss).replyCopies ensures other == kept {
      CopiedKeyIsDropped(ss, e, other);
      DropOfReply(ss, e, (copied, other));
    }
  }
}
