/** The autopilot's three sliding one-hour limits. Times are nanoseconds. */
module RateLimiter {
  import opened Wrappers
  import opened Orders
  import opened Sequences

  const HOUR := 3_600_000_000_000
  const SAME_INPUT_CALLS_PER_HOUR := 3

  datatype RecentCall = RecentCall(server: string, tool: string, inputSha256: string, at: int)

  /** In the order they are checked. */
  datatype Limit = SameInput | ThisTool | AllTools

  datatype RateLimited = RateLimited(limit: Limit, calls: nat, freesAt: int)

  /** The call that asks: which server, tool and input. */
  datatype Ask = Ask(server: string, tool: string, inputSha256: string)

  function PerToolCallsPerHour(perHour: nat): nat {
    if perHour / 3 == 0 then 1 else perHour / 3
  }

  function Figure(limit: Limit, perHour: nat): nat {
    match limit
    case SameInput => SAME_INPUT_CALLS_PER_HOUR
    case ThisTool => PerToolCallsPerHour(perHour)
    case AllTools => perHour
  }

  /** Which calls a limit counts against `ask`. */
  predicate Counts(limit: Limit, ask: Ask, call: RecentCall) {
    match limit
    case SameInput => call.server == ask.server && call.tool == ask.tool && call.inputSha256 == ask.inputSha256
    case ThisTool => call.server == ask.server && call.tool == ask.tool
    case AllTools => true
  }

  function Counted(limit: Limit, ask: Ask): RecentCall -> bool {
    (call: RecentCall) => Counts(limit, ask, call)
  }

  function After(since: int): RecentCall -> bool {
    (call: RecentCall) => call.at > since
  }

  predicate ByTime(a: RecentCall, b: RecentCall) {
    a.at <= b.at
  }

  function Times(calls: seq<RecentCall>): (times: seq<int>)
    ensures |times| == |calls|
  {
    seq(|calls|, i requires 0 <= i < |calls| => calls[i].at)
  }

  /** The times a limit counts: of the calls after `since`, sorted, those it counts. */
  function TimesOf(recent: seq<RecentCall>, limit: Limit, ask: Ask, since: int): seq<int> {
    Times(Filter(SortBy(Filter(recent, After(since)), ByTime), Counted(limit, ask)))
  }

  function Held(limit: Limit, calls: nat, times: seq<int>): Option<RateLimited>
    requires calls > 0
  {
    if |times| >= calls then Some(RateLimited(limit, calls, times[|times| - calls] + HOUR)) else None
  }

  function HeldAt(recent: seq<RecentCall>, limit: Limit, ask: Ask, perHour: nat, now: int): Option<RateLimited>
    requires perHour > 0
  {
    Held(limit, Figure(limit, perHour), TimesOf(recent, limit, ask, now - HOUR))
  }

  /** The first limit that holds the call, if one does. A team's `paid_calls_per_hour` is at least 1. */
  function RateLimit(recent: seq<RecentCall>, ask: Ask, perHour: nat, now: int): Option<RateLimited>
    requires perHour > 0
  {
    var same := HeldAt(recent, SameInput, ask, perHour, now);
    if same.Some? then same
    else
      var tool := HeldAt(recent, ThisTool, ask, perHour, now);
      if tool.Some? then tool else HeldAt(recent, AllTools, ask, perHour, now)
  }

  // ----- what the sorted times are

  function IntLe(a: int, b: int): bool {
    a <= b
  }

  /** The calls a limit counts after `since`. */
  function InWindow(limit: Limit, ask: Ask, since: int): RecentCall -> bool {
    (call: RecentCall) => call.at > since && Counts(limit, ask, call)
  }

  lemma {:induction false} CountTimes(calls: seq<RecentCall>, others: seq<RecentCall>)
    requires multiset(calls) == multiset(others)
    ensures multiset(Times(calls)) == multiset(Times(others))
  {
    if calls == [] || others == [] {
      assert |multiset(calls)| == |calls| && |multiset(others)| == |others|;
    } else {
      var last := calls[|calls| - 1];
      assert last in multiset(others) by { assert last in multiset(calls); }
      var at :| 0 <= at < |others| && others[at] == last;
      WithoutOne(calls, others, at);
      var rest := others[..at] + others[at + 1..];
      CountTimes(calls[..|calls| - 1], rest);
      assert Times(calls) == Times(calls[..|calls| - 1]) + [last.at];
      assert Times(others) == Times(rest)[..at] + [last.at] + Times(rest)[at..];
      assert Times(rest) == Times(rest)[..at] + Times(rest)[at..];
    }
  }

  lemma {:induction false} FilterKeepsSorted(calls: seq<RecentCall>, keep: RecentCall -> bool)
    requires IsSorted(calls, ByTime)
    ensures IsSorted(Filter(calls, keep), ByTime)
    ensures forall x | x in Filter(calls, keep) :: x in calls
  {
    if calls != [] {
      var init, last := calls[..|calls| - 1], calls[|calls| - 1];
      FilterKeepsSorted(init, keep);
      forall x | x in init ensures ByTime(x, last) {
        var i :| 0 <= i < |init| && init[i] == x;
        assert ByTime(calls[i], calls[|calls| - 1]);
      }
    }
  }

  /** Sorted, and the times of exactly the calls counted after `since`. */
  lemma TimesAre(recent: seq<RecentCall>, limit: Limit, ask: Ask, since: int)
    ensures IsSorted(TimesOf(recent, limit, ask, since), IntLe)
    ensures multiset(TimesOf(recent, limit, ask, since)) == multiset(Times(Filter(recent, InWindow(limit, ask, since))))
    ensures |TimesOf(recent, limit, ask, since)| == |Filter(recent, InWindow(limit, ask, since))|
  {
    var inside := Filter(recent, After(since));
    var sorted := SortBy(inside, ByTime);
    SortBySorts(inside, ByTime);
    FilterKeepsSorted(sorted, Counted(limit, ask));
    FilterIgnoresOrder(sorted, inside, Counted(limit, ask));
    FilterTwice(recent, After(since), Counted(limit, ask), InWindow(limit, ask, since));
    var counted := Filter(sorted, Counted(limit, ask));
    CountTimes(counted, Filter(recent, InWindow(limit, ask, since)));
    assert |multiset(counted)| == |multiset(Filter(recent, InWindow(limit, ask, since)))|;
    forall i, j | 0 <= i < j < |counted| ensures IntLe(Times(counted)[i], Times(counted)[j]) {
      assert ByTime(counted[i], counted[j]);
    }
  }

  /** A limit holds exactly when the past hour holds its figure. */
  lemma HeldWhenFull(recent: seq<RecentCall>, limit: Limit, ask: Ask, perHour: nat, now: int)
    requires perHour > 0
    ensures HeldAt(recent, limit, ask, perHour, now).Some? <==>
            |Filter(recent, InWindow(limit, ask, now - HOUR))| >= Figure(limit, perHour)
  {
    TimesAre(recent, limit, ask, now - HOUR);
  }

  // ----- only the past hour's calls matter, in any order

  lemma TimesIgnoreOrder(a: seq<RecentCall>, b: seq<RecentCall>, limit: Limit, ask: Ask, since: int)
    requires multiset(Filter(a, After(since))) == multiset(Filter(b, After(since)))
    ensures TimesOf(a, limit, ask, since) == TimesOf(b, limit, ask, since)
  {
    TimesAre(a, limit, ask, since);
    TimesAre(b, limit, ask, since);
    FilterTwice(a, After(since), Counted(limit, ask), InWindow(limit, ask, since));
    FilterTwice(b, After(since), Counted(limit, ask), InWindow(limit, ask, since));
    FilterIgnoresOrder(Filter(a, After(since)), Filter(b, After(since)), Counted(limit, ask));
    CountTimes(Filter(a, InWindow(limit, ask, since)), Filter(b, InWindow(limit, ask, since)));
    SortedIsUnique(TimesOf(a, limit, ask, since), TimesOf(b, limit, ask, since), IntLe);
  }

  /** Two histories with the same calls in the past hour get the same answer, whatever the order
      of either and whatever older calls they hold. */
  lemma AnswerIgnoresOrderAndOldCalls(a: seq<RecentCall>, b: seq<RecentCall>, ask: Ask, perHour: nat, now: int)
    requires perHour > 0
    requires multiset(Filter(a, After(now - HOUR))) == multiset(Filter(b, After(now - HOUR)))
    ensures RateLimit(a, ask, perHour, now) == RateLimit(b, ask, perHour, now)
  {
    TimesIgnoreOrder(a, b, SameInput, ask, now - HOUR);
    TimesIgnoreOrder(a, b, ThisTool, ask, now - HOUR);
    TimesIgnoreOrder(a, b, AllTools, ask, now - HOUR);
  }

  // ----- the exact release time

  /** Sorted times up to `since` are the first `k`. */
  ghost predicate CutAt(times: seq<int>, since: int, k: nat) {
    && k <= |times|
    && (forall i | 0 <= i < k :: times[i] <= since)
    && (forall i | k <= i < |times| :: times[i] > since)
  }

  lemma {:induction false} Cut(times: seq<int>, since: int) returns (k: nat)
    requires IsSorted(times, IntLe)
    ensures CutAt(times, since, k)
  {
    if times == [] || times[|times| - 1] <= since {
      k := |times|;
      forall i | 0 <= i < k ensures times[i] <= since {
        if i < k - 1 { assert IntLe(times[i], times[k - 1]); }
      }
    } else {
      k := Cut(times[..|times| - 1], since);
    }
  }

  lemma CutCounts(times: seq<int>, since: int, k: nat, x: int)
    requires CutAt(times, since, k)
    ensures multiset(times[k..])[x] == if x > since then multiset(times)[x] else 0
  {
    assert times == times[..k] + times[k..];
    assert x > since ==> x !in times[..k];
    assert x <= since ==> x !in times[k..];
  }

  lemma {:induction false} LaterCounts(recent: seq<RecentCall>, limit: Limit, ask: Ask, since: int, later: int, x: int)
    requires since <= later
    ensures multiset(Times(Filter(recent, InWindow(limit, ask, later))))[x] ==
            if x > later then multiset(Times(Filter(recent, InWindow(limit, ask, since))))[x] else 0
  {
    if recent != [] {
      var init, last := recent[..|recent| - 1], recent[|recent| - 1];
      LaterCounts(init, limit, ask, since, later, x);
      LastTime(recent, InWindow(limit, ask, since));
      LastTime(recent, InWindow(limit, ask, later));
    }
  }

  lemma TimesPush(calls: seq<RecentCall>, call: RecentCall)
    ensures Times(calls + [call]) == Times(calls) + [call.at]
  {
  }

  lemma LastTime(calls: seq<RecentCall>, keep: RecentCall -> bool)
    requires calls != []
    ensures Times(Filter(calls, keep)) ==
            Times(Filter(calls[..|calls| - 1], keep)) + if keep(calls[|calls| - 1]) then [calls[|calls| - 1].at] else []
  {
    var init, last := Filter(calls[..|calls| - 1], keep), calls[|calls| - 1];
    if keep(last) {
      assert Filter(calls, keep) == init + [last];
      TimesPush(init, last);
    } else {
      assert Filter(calls, keep) == init + [] == init;
      assert Times(init) + [] == Times(init);
    }
  }

  /** Later, the times counted are those of now without the ones that have left the hour. */
  lemma TimesLater(recent: seq<RecentCall>, limit: Limit, ask: Ask, since: int, later: int) returns (k: nat)
    requires since <= later
    ensures CutAt(TimesOf(recent, limit, ask, since), later, k)
    ensures TimesOf(recent, limit, ask, later) == TimesOf(recent, limit, ask, since)[k..]
  {
    hide TimesOf, Filter;
    var times, there := TimesOf(recent, limit, ask, since), TimesOf(recent, limit, ask, later);
    TimesAre(recent, limit, ask, since);
    TimesAre(recent, limit, ask, later);
    k := Cut(times, later);
    forall x ensures multiset(there)[x] == multiset(times[k..])[x] {
      CutCounts(times, later, k, x);
      LaterCounts(recent, limit, ask, since, later, x);
    }
    SortedIsUnique(there, times[k..], IntLe);
  }

  lemma HeldAfterCut(limit: Limit, calls: nat, times: seq<int>, there: seq<int>, later: int, k: nat)
    requires calls > 0 && CutAt(times, later - HOUR, k) && there == times[k..]
    ensures var held := Held(limit, calls, times);
            Held(limit, calls, there) == if held.Some? && later < held.value.freesAt then held else None
  {
  }

  /** A limit that holds says the same until its release time, and not at it; one that does not
      hold does not come to hold. */
  lemma HeldLater(recent: seq<RecentCall>, limit: Limit, ask: Ask, perHour: nat, now: int, later: int)
    requires perHour > 0 && now <= later
    ensures var held := HeldAt(recent, limit, ask, perHour, now);
            HeldAt(recent, limit, ask, perHour, later) ==
            if held.Some? && later < held.value.freesAt then held else None
  {
    var times, there := TimesOf(recent, limit, ask, now - HOUR), TimesOf(recent, limit, ask, later - HOUR);
    var k := TimesLater(recent, limit, ask, now - HOUR, later - HOUR);
    HeldAfterCut(limit, Figure(limit, perHour), times, there, later, k);
  }

  predicate CheckedNoLater(a: Limit, b: Limit) {
    a == b || a.SameInput? || b.AllTools?
  }

  /** A refusal stays the identical refusal at every instant up to its release time. */
  lemma RefusalHoldsUntilRelease(recent: seq<RecentCall>, ask: Ask, perHour: nat, now: int, refusal: RateLimited, later: int)
    requires perHour > 0 && RateLimit(recent, ask, perHour, now) == Some(refusal)
    requires now <= later < refusal.freesAt
    ensures RateLimit(recent, ask, perHour, later) == Some(refusal)
  {
    HeldLater(recent, SameInput, ask, perHour, now, later);
    HeldLater(recent, ThisTool, ask, perHour, now, later);
    HeldLater(recent, AllTools, ask, perHour, now, later);
  }

  lemma RefusedByLimit(recent: seq<RecentCall>, ask: Ask, perHour: nat, now: int, refusal: RateLimited, limit: Limit)
    requires perHour > 0 && RateLimit(recent, ask, perHour, now) == Some(refusal)
    requires CheckedNoLater(limit, refusal.limit)
    ensures HeldAt(recent, limit, ask, perHour, now) == if limit == refusal.limit then Some(refusal) else None
  {
  }

  lemma FreesLater(recent: seq<RecentCall>, limit: Limit, ask: Ask, perHour: nat, now: int, refusal: RateLimited)
    requires perHour > 0 && HeldAt(recent, limit, ask, perHour, now) == Some(refusal)
    ensures now < refusal.freesAt
  {
    HeldLater(recent, limit, ask, perHour, now, now);
  }

  /** At its release time that limit, and every one checked before it, no longer holds. */
  lemma ReleasedAtRelease(recent: seq<RecentCall>, ask: Ask, perHour: nat, now: int, refusal: RateLimited, limit: Limit)
    requires perHour > 0 && RateLimit(recent, ask, perHour, now) == Some(refusal)
    requires CheckedNoLater(limit, refusal.limit)
    ensures now < refusal.freesAt && HeldAt(recent, limit, ask, perHour, refusal.freesAt).None?
  {
    RefusedByLimit(recent, ask, perHour, now, refusal, refusal.limit);
    FreesLater(recent, refusal.limit, ask, perHour, now, refusal);
    RefusedByLimit(recent, ask, perHour, now, refusal, limit);
    HeldLater(recent, limit, ask, perHour, now, refusal.freesAt);
  }

  lemma AllowedWhenNoneHolds(recent: seq<RecentCall>, ask: Ask, perHour: nat, now: int)
    requires perHour > 0
    ensures RateLimit(recent, ask, perHour, now).None? <==>
            forall limit: Limit :: HeldAt(recent, limit, ask, perHour, now).None?
  {
  }

  lemma HoldsAtRelease(recent: seq<RecentCall>, ask: Ask, perHour: nat, now: int, refusal: RateLimited, limit: Limit)
    requires perHour > 0 && RateLimit(recent, ask, perHour, now) == Some(refusal)
    ensures HeldAt(recent, limit, ask, perHour, refusal.freesAt).None? <==>
            CheckedNoLater(limit, refusal.limit) ||
            |Filter(recent, InWindow(limit, ask, refusal.freesAt - HOUR))| < Figure(limit, perHour)
  {
    hide HeldAt, RateLimit, Filter;
    if CheckedNoLater(limit, refusal.limit) {
      ReleasedAtRelease(recent, ask, perHour, now, refusal, limit);
    } else {
      HeldWhenFull(recent, limit, ask, perHour, refusal.freesAt);
    }
  }

  /** `frees_at` promises one more call, and that call is let through exactly when no limit checked
      later is full of the calls that remain in the hour by then. */
  lemma AllowedAtReleaseUnlessLaterFull(recent: seq<RecentCall>, ask: Ask, perHour: nat, now: int, refusal: RateLimited)
    requires perHour > 0 && RateLimit(recent, ask, perHour, now) == Some(refusal)
    ensures RateLimit(recent, ask, perHour, refusal.freesAt).None? <==>
            forall limit: Limit | !CheckedNoLater(limit, refusal.limit) ::
              |Filter(recent, InWindow(limit, ask, refusal.freesAt - HOUR))| < Figure(limit, perHour)
  {
    AllowedWhenNoneHolds(recent, ask, perHour, refusal.freesAt);
    HoldsAtRelease(recent, ask, perHour, now, refusal, SameInput);
    HoldsAtRelease(recent, ask, perHour, now, refusal, ThisTool);
    HoldsAtRelease(recent, ask, perHour, now, refusal, AllTools);
  }

  // ----- whole runs

  function AskOf(call: RecentCall): Ask {
    Ask(call.server, call.tool, call.inputSha256)
  }

  /** `call` was let through against the calls before it. */
  ghost predicate LetThrough(before: seq<RecentCall>, call: RecentCall, perHour: nat)
    requires perHour > 0
  {
    RateLimit(before, AskOf(call), perHour, call.at).None?
  }

  /** Times never go back, and every call was let through against the calls before it. */
  ghost predicate IsAdmitted(history: seq<RecentCall>, perHour: nat)
    requires perHour > 0
  {
    history == [] ||
    var before, last := history[..|history| - 1], history[|history| - 1];
    && (forall i | 0 <= i < |before| :: before[i].at <= last.at)
    && LetThrough(before, last, perHour)
    && IsAdmitted(before, perHour)
  }

  /** The calls a limit counts in the hour that ends at `end`, without its first instant. */
  function InHour(limit: Limit, ask: Ask, end: int): RecentCall -> bool {
    (call: RecentCall) => end - HOUR < call.at <= end && Counts(limit, ask, call)
  }

  lemma RoomWhenAdmitted(before: seq<RecentCall>, call: RecentCall, perHour: nat, limit: Limit)
    requires perHour > 0 && LetThrough(before, call, perHour)
    ensures |Filter(before, InWindow(limit, AskOf(call), call.at - HOUR))| < Figure(limit, perHour)
  {
    hide HeldAt, RateLimit, Filter;
    AllowedWhenNoneHolds(before, AskOf(call), perHour, call.at);
    HeldWhenFull(before, limit, AskOf(call), perHour, call.at);
  }

  /** In an admitted history no hour holds more calls than any limit's figure. */
  lemma {:induction false} NoHourOverFull(history: seq<RecentCall>, perHour: nat, limit: Limit, ask: Ask, end: int)
    requires perHour > 0 && IsAdmitted(history, perHour)
    ensures |Filter(history, InHour(limit, ask, end))| <= Figure(limit, perHour)
  {
    if history != [] {
      var before, last := history[..|history| - 1], history[|history| - 1];
      NoHourOverFull(before, perHour, limit, ask, end);
      if InHour(limit, ask, end)(last) {
        RoomWhenAdmitted(before, last, perHour, limit);
        FilterLooser(before, InHour(limit, ask, end), InWindow(limit, AskOf(last), last.at - HOUR));
      }
    }
  }

  /** The documented figures: all tools, one tool, and one call with one input. */
  lemma RateSafety(history: seq<RecentCall>, perHour: nat, server: string, tool: string, input: string, end: int)
    requires perHour > 0 && IsAdmitted(history, perHour)
    ensures |Filter(history, (c: RecentCall) => end - HOUR < c.at <= end)| <= perHour
    ensures |Filter(history, (c: RecentCall) => end - HOUR < c.at <= end && c.server == server && c.tool == tool)| <=
            if perHour / 3 > 1 then perHour / 3 else 1
    ensures |Filter(history, (c: RecentCall) =>
               end - HOUR < c.at <= end && c.server == server && c.tool == tool && c.inputSha256 == input)| <= 3
  {
    var ask := Ask(server, tool, input);
    NoHourOverFull(history, perHour, AllTools, ask, end);
    NoHourOverFull(history, perHour, ThisTool, ask, end);
    NoHourOverFull(history, perHour, SameInput, ask, end);
    FilterLooser(history, (c: RecentCall) => end - HOUR < c.at <= end, InHour(AllTools, ask, end));
    FilterLooser(history, (c: RecentCall) => end - HOUR < c.at <= end && c.server == server && c.tool == tool,
                 InHour(ThisTool, ask, end));
    FilterLooser(history, (c: RecentCall) =>
      end - HOUR < c.at <= end && c.server == server && c.tool == tool && c.inputSha256 == input,
      InHour(SameInput, ask, end));
  }

  /** A refusal's release time is an hour after a call its limit counts. */
  lemma ReleaseIsOfACall(recent: seq<RecentCall>, ask: Ask, perHour: nat, now: int, refusal: RateLimited)
    returns (call: RecentCall)
    requires perHour > 0 && RateLimit(recent, ask, perHour, now) == Some(refusal)
    ensures call in recent && call.at == refusal.freesAt - HOUR && Counts(refusal.limit, ask, call)
  {
    var limit, since := refusal.limit, now - HOUR;
    var times, calls := TimesOf(recent, limit, ask, since), Filter(recent, InWindow(limit, ask, since));
    hide TimesOf, Filter, Counts;
    RefusedByLimit(recent, ask, perHour, now, refusal, limit);
    TimesAre(recent, limit, ask, since);
    hide RateLimit;
    var time := times[|times| - Figure(limit, perHour)];
    assert time == refusal.freesAt - HOUR;
    hide HeldAt, Held;
    call := TimeIsOfACall(times, calls, time);
    FilteredIsIn(recent, InWindow(limit, ask, since), call);
  }

  lemma TimeIsOfACall(times: seq<int>, calls: seq<RecentCall>, time: int) returns (call: RecentCall)
    requires multiset(times) == multiset(Times(calls)) && time in times
    ensures call in calls && call.at == time
  {
    assert time in multiset(Times(calls));
    var i :| 0 <= i < |calls| && Times(calls)[i] == time;
    call := calls[i];
  }

  lemma LaterCountsMore(limit: Limit, later: Limit, ask: Ask, call: RecentCall)
    requires Counts(limit, ask, call) && !CheckedNoLater(later, limit)
    ensures Counts(later, ask, call)
  {
  }

  /** The hour that ends just before the release holds one call more than is left at it. */
  lemma RoomAtRelease(history: seq<RecentCall>, limit: Limit, ask: Ask, perHour: nat, freesAt: int, call: RecentCall)
    requires perHour > 0 && IsAdmitted(history, perHour) && forall c | c in history :: c.at < freesAt
    requires call in history && call.at == freesAt - HOUR && Counts(limit, ask, call)
    ensures |Filter(history, InWindow(limit, ask, freesAt - HOUR))| < Figure(limit, perHour)
  {
    NoHourOverFull(history, perHour, limit, ask, freesAt - 1);
    FilterLooserByOne(history, InWindow(limit, ask, freesAt - HOUR), InHour(limit, ask, freesAt - 1), call);
  }

  /** The promise of `frees_at` is kept for every history the limiter let through under the same figure: the refused
      call is let through at the release time. */
  lemma AdmittedIsAllowedAtRelease(history: seq<RecentCall>, ask: Ask, perHour: nat, now: int, refusal: RateLimited)
    requires perHour > 0 && IsAdmitted(history, perHour) && forall c | c in history :: c.at <= now
    requires RateLimit(history, ask, perHour, now) == Some(refusal)
    ensures RateLimit(history, ask, perHour, refusal.freesAt).None?
  {
    hide Filter, RateLimit, IsAdmitted, Counts;
    AllowedAtReleaseUnlessLaterFull(history, ask, perHour, now, refusal);
    ReleasedAtRelease(history, ask, perHour, now, refusal, refusal.limit);
    var call := ReleaseIsOfACall(history, ask, perHour, now, refusal);
    forall limit: Limit | !CheckedNoLater(limit, refusal.limit)
      ensures |Filter(history, InWindow(limit, ask, refusal.freesAt - HOUR))| < Figure(limit, perHour)
    {
      LaterCountsMore(refusal.limit, limit, ask, call);
      RoomAtRelease(history, limit, ask, perHour, refusal.freesAt, call);
    }
  }

  lemma FewLeaveRoom(before: seq<RecentCall>, call: RecentCall)
    requires |before| <= 2
    ensures LetThrough(before, call, 9)
  {
    hide TimesOf, HeldAt, RateLimit, Counts, Filter;
    AllowedWhenNoneHolds(before, AskOf(call), 9, call.at);
    forall limit: Limit ensures HeldAt(before, limit, AskOf(call), 9, call.at).None? {
      HeldWhenFull(before, limit, AskOf(call), 9, call.at);
    }
  }

  /** Three calls or fewer are let through under a figure of 9. */
  lemma {:induction false} FewAreAdmitted(history: seq<RecentCall>)
    requires |history| <= 3 && forall i, j | 0 <= i < j < |history| :: history[i].at <= history[j].at
    ensures IsAdmitted(history, 9)
  {
    hide LetThrough;
    if history != [] {
      var before, last := history[..|history| - 1], history[|history| - 1];
      FewAreAdmitted(before);
      FewLeaveRoom(before, last);
    }
  }

  function Alike(at: int): RecentCall {
    RecentCall("s", "t", "i", at)
  }

  /** It need not be kept once the figure is lowered: three calls alike let through under a figure of 9, then a
      fourth under a figure of 3. The repeated call is freed when the first leaves the hour, and the tool, whose share
      is now one call, is full all the same. No history let through under the figure of 3 is like that. */
  lemma ReleaseIsNotAlwaysAllowed()
    ensures var recent := [Alike(1), Alike(2), Alike(3)];
            var ask := AskOf(Alike(4));
            && IsAdmitted(recent, 9) && !IsAdmitted(recent, 3)
            && RateLimit(recent, ask, 3, 4) == Some(RateLimited(SameInput, 3, 1 + HOUR))
            && RateLimit(recent, ask, 3, 1 + HOUR) == Some(RateLimited(ThisTool, 1, 3 + HOUR))
  {
    var recent := [Alike(1), Alike(2), Alike(3)];
    var ask := AskOf(Alike(4));
    hide TimesOf, IsAdmitted;
    TimesOfRising(recent, SameInput, ask, 4 - HOUR);
    TimesOfRising(recent, SameInput, ask, 1);
    TimesOfRising(recent, ThisTool, ask, 1);
    FewAreAdmitted(recent);
    if IsAdmitted(recent, 3) {
      AdmittedIsAllowedAtRelease(recent, ask, 3, 4, RateLimited(SameInput, 3, 1 + HOUR));
    }
  }

  lemma FilterThree<T>(s: seq<T>, keep: T -> bool)
    requires |s| == 3 && keep(s[1]) && keep(s[2])
    ensures Filter(s, keep) == (if keep(s[0]) then [s[0]] else []) + [s[1], s[2]]
  {
    var two, one := s[..2], s[..1];
    assert two[..1] == one && one[..0] == [];
    assert Filter(one, keep) == if keep(s[0]) then [s[0]] else [];
    assert Filter(two, keep) == Filter(one, keep) + [s[1]];
  }

  /** Three rising calls that all count, from `since` on. */
  lemma TimesOfRising(recent: seq<RecentCall>, limit: Limit, ask: Ask, since: int)
    requires |recent| == 3 && recent[0].at < recent[1].at < recent[2].at && since < recent[1].at
    requires Counts(limit, ask, recent[0]) && Counts(limit, ask, recent[1]) && Counts(limit, ask, recent[2])
    ensures TimesOf(recent, limit, ask, since) ==
            (if since < recent[0].at then [recent[0].at] else []) + [recent[1].at, recent[2].at]
  {
    var rest := (if since < recent[0].at then [recent[0].at] else []) + [recent[1].at, recent[2].at];
    hide TimesOf, Filter, Counts;
    TimesAre(recent, limit, ask, since);
    FilterThree(recent, InWindow(limit, ask, since));
    TimesOfThree(recent, since, Filter(recent, InWindow(limit, ask, since)));
    SortedIsUnique(TimesOf(recent, limit, ask, since), rest, IntLe);
  }

  lemma TimesOfThree(recent: seq<RecentCall>, since: int, calls: seq<RecentCall>)
    requires |recent| == 3 && recent[0].at < recent[1].at < recent[2].at
    requires calls == (if since < recent[0].at then [recent[0]] else []) + [recent[1], recent[2]]
    ensures var rest := (if since < recent[0].at then [recent[0].at] else []) + [recent[1].at, recent[2].at];
            Times(calls) == rest && IsSorted(rest, IntLe)
  {
  }

  // ----- the answer, figure by figure

  /** How many of the calls pass. */
  function CountOf(calls: seq<RecentCall>, passes: RecentCall -> bool): nat {
    if calls == [] then 0 else CountOf(calls[..|calls| - 1], passes) + if passes(calls[|calls| - 1]) then 1 else 0
  }

  lemma {:induction false} CountIsFiltered(calls: seq<RecentCall>, passes: RecentCall -> bool, keep: RecentCall -> bool)
    requires forall c :: passes(c) == keep(c)
    ensures CountOf(calls, passes) == |Filter(calls, keep)|
  {
    if calls != [] {
      CountIsFiltered(calls[..|calls| - 1], passes, keep);
    }
  }

  /** Of the calls later than an hour before now: one alike, of the tool, or any. */
  lemma HeldByCount(recent: seq<RecentCall>, ask: Ask, perHour: nat, now: int)
    requires perHour > 0
    ensures HeldAt(recent, SameInput, ask, perHour, now).Some? <==>
            CountOf(recent, (c: RecentCall) => c.at > now - 3_600_000_000_000 && c.server == ask.server
                                               && c.tool == ask.tool && c.inputSha256 == ask.inputSha256) >= 3
    ensures HeldAt(recent, ThisTool, ask, perHour, now).Some? <==>
            CountOf(recent, (c: RecentCall) => c.at > now - 3_600_000_000_000 && c.server == ask.server
                                               && c.tool == ask.tool) >= (if perHour < 3 then 1 else perHour / 3)
    ensures HeldAt(recent, AllTools, ask, perHour, now).Some? <==>
            CountOf(recent, (c: RecentCall) => c.at > now - 3_600_000_000_000) >= perHour
  {
    hide HeldAt, Filter, CountOf;
    forall limit: Limit ensures HeldAt(recent, limit, ask, perHour, now).Some? <==>
              |Filter(recent, InWindow(limit, ask, now - HOUR))| >= Figure(limit, perHour)
    {
      HeldWhenFull(recent, limit, ask, perHour, now);
    }
    CountIsFiltered(recent, (c: RecentCall) => c.at > now - 3_600_000_000_000 && c.server == ask.server
                            && c.tool == ask.tool && c.inputSha256 == ask.inputSha256, InWindow(SameInput, ask, now - HOUR));
    CountIsFiltered(recent, (c: RecentCall) => c.at > now - 3_600_000_000_000 && c.server == ask.server
                            && c.tool == ask.tool, InWindow(ThisTool, ask, now - HOUR));
    CountIsFiltered(recent, (c: RecentCall) => c.at > now - 3_600_000_000_000, InWindow(AllTools, ask, now - HOUR));
  }

  /** The answer is the first figure the last hour's calls have come to, and none when they have come to none: three
      calls alike, the tool's third of the team's figure but at least one, and the figure itself. */
  lemma AnswerExactly(recent: seq<RecentCall>, ask: Ask, perHour: nat, now: int)
    requires perHour > 0
    ensures var alike := CountOf(recent, (c: RecentCall) => c.at > now - 3_600_000_000_000 && c.server == ask.server
                                                            && c.tool == ask.tool && c.inputSha256 == ask.inputSha256);
            var ofTool := CountOf(recent, (c: RecentCall) => c.at > now - 3_600_000_000_000 && c.server == ask.server
                                                             && c.tool == ask.tool);
            var all := CountOf(recent, (c: RecentCall) => c.at > now - 3_600_000_000_000);
            var third := if perHour < 3 then 1 else perHour / 3;
            match RateLimit(recent, ask, perHour, now)
            case None => alike < 3 && ofTool < third && all < perHour
            case Some(RateLimited(SameInput, calls, _)) => calls == 3 && alike >= 3
            case Some(RateLimited(ThisTool, calls, _)) => calls == third && alike < 3 && ofTool >= third
            case Some(RateLimited(AllTools, calls, _)) => calls == perHour && alike < 3 && ofTool < third && all >= perHour
  {
    HeldByCount(recent, ask, perHour, now);
    forall limit: Limit ensures HeldAt(recent, limit, ask, perHour, now).Some? ==>
              var held := HeldAt(recent, limit, ask, perHour, now).value;
              held.limit == limit && held.calls == Figure(limit, perHour)
    {
    }
    hide HeldAt, CountOf;
  }

  lemma HeldThen(recent: seq<RecentCall>, limit: Limit, ask: Ask, perHour: nat, now: int, refusal: RateLimited, later: int)
    requires perHour > 0 && HeldAt(recent, limit, ask, perHour, now) == Some(refusal) && now <= later
    ensures |Filter(recent, InWindow(limit, ask, later - HOUR))| >= Figure(limit, perHour) <==> later < refusal.freesAt
  {
    HeldLater(recent, limit, ask, perHour, now, later);
    hide HeldAt, Figure, Filter, InWindow;
    HeldWhenFull(recent, limit, ask, perHour, later);
  }

  lemma AroundRelease(recent: seq<RecentCall>, limit: Limit, ask: Ask, perHour: nat, now: int, refusal: RateLimited)
    requires perHour > 0 && HeldAt(recent, limit, ask, perHour, now) == Some(refusal)
    ensures |Filter(recent, InWindow(limit, ask, refusal.freesAt - HOUR))| < Figure(limit, perHour) <=
            |Filter(recent, InWindow(limit, ask, refusal.freesAt - 1 - HOUR))|
  {
    hide *;
    FreesLater(recent, limit, ask, perHour, now, refusal);
    HeldThen(recent, limit, ask, perHour, now, refusal, refusal.freesAt);
    HeldThen(recent, limit, ask, perHour, now, refusal, refusal.freesAt - 1);
  }

  lemma RefusedFigure(recent: seq<RecentCall>, ask: Ask, perHour: nat, now: int, refusal: RateLimited)
    requires perHour > 0 && RateLimit(recent, ask, perHour, now) == Some(refusal)
    ensures HeldAt(recent, refusal.limit, ask, perHour, now) == Some(refusal) && refusal.calls == Figure(refusal.limit, perHour)
  {
    hide TimesOf;
  }

  /** The time a figure frees: the calls later than an hour before it fall short of the figure, and with those just an
      hour before it they come to it. */
  lemma ReleaseExactly(recent: seq<RecentCall>, ask: Ask, perHour: nat, now: int, refusal: RateLimited)
    requires perHour > 0 && RateLimit(recent, ask, perHour, now) == Some(refusal)
    ensures CountOf(recent, (c: RecentCall) => c.at > refusal.freesAt - 3_600_000_000_000 && Counts(refusal.limit, ask, c)) <
            refusal.calls <=
            CountOf(recent, (c: RecentCall) => c.at >= refusal.freesAt - 3_600_000_000_000 && Counts(refusal.limit, ask, c))
  {
    hide Filter, CountOf, Counts, RateLimit, HeldAt, Figure;
    var limit, at := refusal.limit, refusal.freesAt;
    RefusedFigure(recent, ask, perHour, now, refusal);
    AroundRelease(recent, limit, ask, perHour, now, refusal);
    CountIsFiltered(recent, (c: RecentCall) => c.at > at - 3_600_000_000_000 && Counts(limit, ask, c),
                    InWindow(limit, ask, at - HOUR));
    CountIsFiltered(recent, (c: RecentCall) => c.at >= at - 3_600_000_000_000 && Counts(limit, ask, c),
                    InWindow(limit, ask, at - 1 - HOUR));
  }
}
