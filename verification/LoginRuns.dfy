/** What the login throttle guarantees over whole runs of failures and successes. */
module LoginRuns {
  import opened Common
  import opened LoginThrottle

  // ---------------------------------------------------------------------
  // Runs
  // ---------------------------------------------------------------------

  /**
   The throttle locks its two maps one after the other, so other calls can come
   between the halves of a recorded failure: it is one event, or its two halves.
   */
  datatype Event =
    | Failure(ip: Ip, username: string, now: Instant)
    | PairHalf(ip: Ip, username: string, now: Instant)
    | AddressHalf(ip: Ip, now: Instant)
    | Success(ip: Ip, username: string, now: Instant)

  function Step(s: State, e: Event): State {
    match e
    case Failure(ip, username, now) => RecordFailure(s, ip, username, now)
    case PairHalf(ip, username, now) => s.(pairs := RecordPair(s.pairs, KeyOf(ip, username), now))
    case AddressHalf(ip, now) => s.(sprays := RecordSpray(s.sprays, ip, now))
    case Success(ip, username, now) => ForgetPair(s, ip, username)
  }

  /** Recorded without a call in between, the halves are the failure. */
  lemma HalvesMakeAFailure(s: State, ip: Ip, username: string, now: Instant)
    ensures Step(s, Failure(ip, username, now)) ==
            var touched := Step(s, PairHalf(ip, username, now));
            if PairIsLocked(s.pairs, KeyOf(ip, username), now) then touched else Step(touched, AddressHalf(ip, now))
  {
  }

  function Run(s: State, events: seq<Event>): State
    decreases |events|
  {
    if events == [] then s else Run(Step(s, events[0]), events[1..])
  }

  /** Instants do not decrease. */
  predicate Timely(events: seq<Event>, start: Instant) {
    events == [] || (start <= events[0].now && Timely(events[1..], events[0].now))
  }

  /** Every failure is recorded where the check still allows the attempt, as logins one after the other do. */
  predicate ChecksFirst(s: State, events: seq<Event>)
    decreases |events|
  {
    events == []
    || (&& !events[0].PairHalf? && !events[0].AddressHalf?
        && (events[0].Failure? ==> Check(s, events[0].ip, events[0].username, events[0].now).Allowed?)
        && ChecksFirst(Step(s, events[0]), events[1..]))
  }

  predicate ReachesAddress(s: State, e: Event) {
    e.AddressHalf? || (e.Failure? && !PairIsLocked(s.pairs, KeyOf(e.ip, e.username), e.now))
  }

  predicate SpraysNeverReset(s: State, events: seq<Event>)
    decreases |events|
  {
    events == []
    || (&& (ReachesAddress(s, events[0]) ==> !ResetsSprays(s.sprays, events[0].ip, events[0].now))
        && SpraysNeverReset(Step(s, events[0]), events[1..]))
  }

  // ---------------------------------------------------------------------
  // Bounded memory
  // ---------------------------------------------------------------------

  predicate FailuresInRange(pairs: Pairs) {
    forall k :: k in pairs ==> pairs[k].failures < 5
  }

  predicate Bounded(s: State) {
    |s.pairs| <= 10_000 && |s.sprays| <= 10_000 && FailuresInRange(s.pairs)
  }

  lemma PairsStayBounded(pairs: Pairs, key: Key, now: Instant)
    requires |pairs| <= MAX_TRACKED_KEYS && FailuresInRange(pairs)
    ensures |RecordPair(pairs, key, now)| <= MAX_TRACKED_KEYS && FailuresInRange(RecordPair(pairs, key, now))
  {
    PairFits(pairs, key, now, RecordPair(pairs, key, now)[key]);
  }

  lemma SpraysStayBounded(sprays: Sprays, ip: Ip, now: Instant)
    requires |sprays| <= MAX_TRACKED_KEYS
    ensures |RecordSpray(sprays, ip, now)| <= MAX_TRACKED_KEYS
  {
    SprayFits(sprays, ip, now, RecordSpray(sprays, ip, now)[ip]);
  }

  lemma StepStaysBounded(s: State, e: Event)
    requires Bounded(s)
    ensures Bounded(Step(s, e))
  {
    SpraysStayBounded(s.sprays, e.ip, e.now);
    if e.Failure? || e.PairHalf? {
      PairsStayBounded(s.pairs, KeyOf(e.ip, e.username), e.now);
    } else if e.Success? {
      var key := KeyOf(e.ip, e.username);
      var pairs := s.pairs - {key};
      SubsetSize(pairs.Keys, s.pairs.Keys);
      assert |pairs| == |pairs.Keys| && |s.pairs| == |s.pairs.Keys|;
    }
  }

  /** Over every run, whatever is reset or swept, neither map outgrows its bound, and no pair counts to five. */
  lemma {:induction false} RunsStayBounded(s: State, events: seq<Event>)
    requires Bounded(s)
    ensures Bounded(Run(s, events))
    decreases |events|
  {
    if events != [] {
      StepStaysBounded(s, events[0]);
      RunsStayBounded(Step(s, events[0]), events[1..]);
    }
  }

  // ---------------------------------------------------------------------
  // The spray bound
  // ---------------------------------------------------------------------

  /** A failure that reaches its address, past a lock of the pair, and that the address counts: it is not locked. */
  predicate CountsForAddress(s: State, e: Event, ip: Ip) {
    ReachesAddress(s, e) && e.ip == ip && !IsLocked(SprayOf(s.sprays, ip).lockedUntil, e.now)
  }

  function FailureTime(s: State, e: Event, ip: Ip): seq<Instant> {
    if CountsForAddress(s, e, ip) then [e.now] else []
  }

  /** The instants of the failures counted for an address. */
  function FailureTimes(s: State, events: seq<Event>, ip: Ip): seq<Instant>
    decreases |events|
  {
    if events == [] then []
    else FailureTime(s, events[0], ip) + FailureTimes(Step(s, events[0]), events[1..], ip)
  }

  /** How many of the instants fall into the half-open window of five minutes that starts at `a`. */
  function InWindow(times: seq<Instant>, a: Instant): nat {
    if times == [] then 0
    else (if a <= times[0] < a + 300.0 then 1 else 0) + InWindow(times[1..], a)
  }

  ghost predicate WindowsHoldAtMost(times: seq<Instant>, n: nat) {
    forall a: Instant :: InWindow(times, a) <= n
  }

  predicate Sorted(times: seq<Instant>) {
    forall i, j :: 0 <= i < j < |times| ==> times[i] <= times[j]
  }

  /** The failure at `p` has left every window that holds an instant the entry can still count. */
  predicate Gone(p: Instant, until: Option<Instant>, t: Instant) {
    p <= t - SPRAY_WINDOW || (until.Some? && p <= until.value - SPRAY_LOCKOUT)
  }

  /**
   What an entry remembers of the failures `times` of its address: the last
   ones, and of the others none that could share a window with a new failure.
   */
  ghost predicate EntryRemembers(e: SprayEntry, times: seq<Instant>, t: Instant) {
    && |e.recent| < SPRAY_FAILURES && |e.recent| <= |times|
    && Sorted(times) && (forall i :: 0 <= i < |times| ==> times[i] <= t)
    && e.recent == times[|times| - |e.recent|..]
    && (forall i :: 0 <= i < |times| - |e.recent| ==> Gone(times[i], e.lockedUntil, t))
  }

  ghost predicate Remembers(sprays: Sprays, ip: Ip, times: seq<Instant>, t: Instant) {
    EntryRemembers(SprayOf(sprays, ip), times, t)
  }

  lemma {:induction false} InWindowAppend(times: seq<Instant>, now: Instant, a: Instant)
    ensures InWindow(times + [now], a) == InWindow(times, a) + if a <= now < a + SPRAY_WINDOW then 1 else 0
  {
    if times == [] {
      assert times + [now] == [now];
      assert [now][1..] == [];
    } else {
      InWindowAppend(times[1..], now, a);
      assert (times + [now])[1..] == times[1..] + [now];
    }
  }

  /** A window that the first `k` instants have left holds no more than the others. */
  lemma {:induction false} OnlyTheRest(times: seq<Instant>, k: nat, a: Instant)
    requires k <= |times| && forall i :: 0 <= i < k ==> times[i] < a
    ensures InWindow(times, a) == InWindow(times[k..], a) <= |times| - k
    decreases |times|
  {
    if k == 0 {
      assert times[0..] == times;
      AtMostAll(times, a);
    } else {
      OnlyTheRest(times[1..], k - 1, a);
      assert times[1..][k - 1..] == times[k..];
    }
  }

  lemma {:induction false} AtMostAll(times: seq<Instant>, a: Instant)
    ensures InWindow(times, a) <= |times|
  {
    if times != [] {
      AtMostAll(times[1..], a);
    }
  }

  /** Pruning drops a front part that is older than the window. */
  lemma {:induction false} PruneDropsOld(recent: seq<Instant>, now: Instant)
    ensures var kept := Prune(recent, now);
            && |kept| <= |recent| && kept == recent[|recent| - |kept|..]
            && forall i :: 0 <= i < |recent| - |kept| ==> recent[i] < now - SPRAY_WINDOW
  {
    if recent != [] && Since(now, recent[0]) > SPRAY_WINDOW {
      PruneDropsOld(recent[1..], now);
      var kept := Prune(recent, now);
      assert recent[1..][|recent| - 1 - |kept|..] == recent[|recent| - |kept|..];
      forall i | 0 <= i < |recent| - |kept| ensures recent[i] < now - SPRAY_WINDOW {
        if i > 0 {
          assert recent[i] == recent[1..][i - 1];
        }
      }
    }
  }

  lemma SuffixOfSuffix(all: seq<Instant>, m: nat, kept: seq<Instant>)
    requires m <= |all| && |kept| <= |all| - m && kept == all[m..][|all| - m - |kept|..]
    ensures kept == all[|all| - |kept|..]
  {
  }

  /** What pruning keeps of the remembered stamps and a new one is the end of all of them; the rest is old. */
  lemma KeptIsTheEnd(e: SprayEntry, times: seq<Instant>, kept: seq<Instant>, t: Instant, now: Instant)
    requires |e.recent| <= |times| && e.recent == times[|times| - |e.recent|..]
    requires forall i :: 0 <= i < |times| - |e.recent| ==> Gone(times[i], e.lockedUntil, t)
    requires t <= now && !IsLocked(e.lockedUntil, now) && kept == Prune(e.recent + [now], now)
    ensures |kept| <= |times| + 1 && kept == (times + [now])[|times| + 1 - |kept|..]
    ensures forall i :: 0 <= i < |times| + 1 - |kept| ==> (times + [now])[i] <= now - SPRAY_WINDOW
  {
    PruneDropsOld(e.recent + [now], now);
    var all, m := times + [now], |times| - |e.recent|;
    assert e.recent + [now] == all[m..];
    SuffixOfSuffix(all, m, kept);
    forall i | 0 <= i < |all| - |kept| ensures all[i] <= now - SPRAY_WINDOW {
      if i < m {
        assert Gone(times[i], e.lockedUntil, t);
      } else {
        assert all[i] == (e.recent + [now])[i - m];
      }
    }
  }

  /** The instants that can share a window with a failure at `now` are all remembered. */
  lemma WindowsWithNow(e: SprayEntry, times: seq<Instant>, kept: seq<Instant>, t: Instant, now: Instant)
    requires |e.recent| <= |times| && e.recent == times[|times| - |e.recent|..]
    requires forall i :: 0 <= i < |times| - |e.recent| ==> Gone(times[i], e.lockedUntil, t)
    requires t <= now && !IsLocked(e.lockedUntil, now) && kept == Prune(e.recent + [now], now)
    ensures |kept| <= |times| + 1 && kept == (times + [now])[|times| + 1 - |kept|..]
    ensures forall i :: 0 <= i < |times| + 1 - |kept| ==> (times + [now])[i] <= now - SPRAY_WINDOW
    ensures forall a: Instant :: a <= now < a + SPRAY_WINDOW ==> InWindow(times + [now], a) <= |kept|
  {
    KeptIsTheEnd(e, times, kept, t, now);
    var all := times + [now];
    forall a: Instant | a <= now < a + SPRAY_WINDOW ensures InWindow(all, a) <= |kept| {
      OnlyTheRest(all, |all| - |kept|, a);
    }
  }

  lemma TimeKeepsMemory(e: SprayEntry, times: seq<Instant>, t: Instant, now: Instant)
    requires EntryRemembers(e, times, t) && t <= now
    ensures EntryRemembers(e, times, now)
  {
  }

  /** A stale entry can be forgotten: none of its failures shares a window with a new one. */
  lemma StaleKeepsMemory(e: SprayEntry, times: seq<Instant>, t: Instant, now: Instant)
    requires EntryRemembers(e, times, t) && t <= now && !SprayIsFresh(e, now)
    ensures EntryRemembers(SprayEntry([], None), times, now)
  {
    forall i | 0 <= i < |times| ensures times[i] <= now - SPRAY_WINDOW {
      if i < |times| - |e.recent| {
        assert Gone(times[i], e.lockedUntil, t);
      } else {
        assert e.recent[|e.recent| - 1] == times[|times| - 1];
        assert times[i] <= times[|times| - 1];
      }
    }
    assert times[|times|..] == [];
  }

  lemma SweepRemembers(sprays: Sprays, ip: Ip, times: seq<Instant>, t: Instant, now: Instant)
    requires Remembers(sprays, ip, times, t) && t <= now
    ensures Remembers(SweepSprays(sprays, now), ip, times, now)
  {
    var e := SprayOf(sprays, ip);
    TimeKeepsMemory(e, times, t, now);
    if ip in sprays && !SprayIsFresh(e, now) {
      StaleKeepsMemory(e, times, t, now);
    }
    assert SprayOf(SweepSprays(sprays, now), ip) in {e, SprayEntry([], None)};
  }

  lemma SortedAppend(times: seq<Instant>, t: Instant, now: Instant)
    requires Sorted(times) && t <= now && forall i :: 0 <= i < |times| ==> times[i] <= t
    ensures Sorted(times + [now]) && forall i :: 0 <= i < |times + [now]| ==> (times + [now])[i] <= now
  {
  }

  /** The entry of an address that has just been locked remembers no stamp. */
  lemma TripRemembers(times: seq<Instant>, t: Instant, now: Instant)
    requires Sorted(times) && t <= now && forall i :: 0 <= i < |times| ==> times[i] <= t
    ensures EntryRemembers(SprayEntry([], Some(now + SPRAY_LOCKOUT)), times + [now], now)
  {
    SortedAppend(times, t, now);
    assert (times + [now])[|times + [now]|..] == [];
  }

  lemma KeptRemembers(e: SprayEntry, times: seq<Instant>, kept: seq<Instant>, t: Instant, now: Instant)
    requires Sorted(times) && t <= now && forall i :: 0 <= i < |times| ==> times[i] <= t
    requires |kept| < SPRAY_FAILURES && |kept| <= |times| + 1 && kept == (times + [now])[|times| + 1 - |kept|..]
    requires forall i :: 0 <= i < |times| + 1 - |kept| ==> (times + [now])[i] <= now - SPRAY_WINDOW
    ensures EntryRemembers(e.(recent := kept), times + [now], now)
  {
    SortedAppend(times, t, now);
  }

  /** One recorded failure keeps the memory exact and no window fuller than allowed. */
  lemma CountRemembers(e: SprayEntry, times: seq<Instant>, t: Instant, now: Instant)
    requires EntryRemembers(e, times, t) && t <= now && WindowsHoldAtMost(times, SPRAY_FAILURES)
    requires !IsLocked(e.lockedUntil, now)
    ensures EntryRemembers(CountSpray(e, now), times + [now], now)
    ensures WindowsHoldAtMost(times + [now], SPRAY_FAILURES)
  {
    var kept := Prune(e.recent + [now], now);
    WindowsWithNow(e, times, kept, t, now);
    PruneDropsOld(e.recent + [now], now);
    if |kept| >= SPRAY_FAILURES {
      TripRemembers(times, t, now);
    } else {
      KeptRemembers(e, times, kept, t, now);
    }
    forall a: Instant ensures InWindow(times + [now], a) <= SPRAY_FAILURES {
      InWindowAppend(times, now, a);
    }
  }

  lemma FailureRemembers(sprays: Sprays, ip: Ip, times: seq<Instant>, t: Instant, now: Instant)
    requires Remembers(sprays, ip, times, t) && t <= now && WindowsHoldAtMost(times, SPRAY_FAILURES)
    requires !IsLocked(SprayOf(sprays, ip).lockedUntil, now) && !ResetsSprays(sprays, ip, now)
    ensures Remembers(RecordSpray(sprays, ip, now), ip, times + [now], now)
    ensures WindowsHoldAtMost(times + [now], SPRAY_FAILURES)
  {
    CountRemembers(SprayOf(sprays, ip), times, t, now);
    assert SprayOf(SpraysRoom(sprays, ip, now), ip) == SprayOf(sprays, ip);
    assert SprayOf(RecordSpray(sprays, ip, now), ip) == CountSpray(SprayOf(sprays, ip), now);
  }

  lemma OthersRemember(sprays: Sprays, other: Ip, ip: Ip, times: seq<Instant>, t: Instant, now: Instant)
    requires Remembers(sprays, ip, times, t) && t <= now
    requires other != ip && !ResetsSprays(sprays, other, now)
    ensures Remembers(RecordSpray(sprays, other, now), ip, times, now)
  {
    SweepRemembers(sprays, ip, times, t, now);
    TimeRemembers(sprays, ip, times, t, now);
    var room := SpraysRoom(sprays, other, now);
    assert SprayOf(RecordSpray(sprays, other, now), ip) == SprayOf(room, ip);
  }

  lemma TimeRemembers(sprays: Sprays, ip: Ip, times: seq<Instant>, t: Instant, now: Instant)
    requires Remembers(sprays, ip, times, t) && t <= now
    ensures Remembers(sprays, ip, times, now)
  {
  }

  /** A failure recorded for an address that is locked leaves the address map alone. */
  lemma LockedAddressStands(sprays: Sprays, ip: Ip, now: Instant)
    requires IsLocked(SprayOf(sprays, ip).lockedUntil, now)
    ensures RecordSpray(sprays, ip, now) == sprays
  {
    assert ip in sprays && SpraysRoom(sprays, ip, now) == sprays;
  }

  lemma StepRemembers(s: State, e: Event, ip: Ip, times: seq<Instant>, t: Instant)
    requires Remembers(s.sprays, ip, times, t) && t <= e.now && WindowsHoldAtMost(times, SPRAY_FAILURES)
    requires ReachesAddress(s, e) ==> !ResetsSprays(s.sprays, e.ip, e.now)
    ensures Remembers(Step(s, e).sprays, ip, times + FailureTime(s, e, ip), e.now)
    ensures WindowsHoldAtMost(times + FailureTime(s, e, ip), SPRAY_FAILURES)
  {
    assert times + [] == times;
    if !ReachesAddress(s, e) {
      TimeRemembers(s.sprays, ip, times, t, e.now);
    } else if e.ip != ip {
      OthersRemember(s.sprays, e.ip, ip, times, t, e.now);
    } else if IsLocked(SprayOf(s.sprays, ip).lockedUntil, e.now) {
      LockedAddressStands(s.sprays, ip, e.now);
      TimeRemembers(s.sprays, ip, times, t, e.now);
    } else {
      FailureRemembers(s.sprays, ip, times, t, e.now);
    }
  }

  /** Where a run goes next. */
  lemma RunHead(s: State, events: seq<Event>, t: Instant, ip: Ip)
    returns (e: Event, rest: seq<Event>, after: State)
    requires events != [] && Timely(events, t) && SpraysNeverReset(s, events)
    ensures e == events[0] && rest == events[1..] && after == Step(s, e)
    ensures t <= e.now && Run(s, events) == Run(after, rest)
    ensures ReachesAddress(s, e) ==> !ResetsSprays(s.sprays, e.ip, e.now)
    ensures Timely(rest, e.now) && SpraysNeverReset(after, rest)
    ensures FailureTimes(s, events, ip) == FailureTime(s, e, ip) + FailureTimes(after, rest, ip)
    ensures EndOf(rest, e.now) == EndOf(events, t)
  {
    e, rest, after := events[0], events[1..], Step(s, events[0]);
  }

  /** The instant a run has come to. */
  function EndOf(events: seq<Event>, t: Instant): Instant {
    if events == [] then t else events[|events| - 1].now
  }

  lemma {:induction false} RunRemembers(s: State, events: seq<Event>, ip: Ip, times: seq<Instant>, t: Instant)
    requires Remembers(s.sprays, ip, times, t) && WindowsHoldAtMost(times, SPRAY_FAILURES)
    requires Timely(events, t) && SpraysNeverReset(s, events)
    ensures Remembers(Run(s, events).sprays, ip, times + FailureTimes(s, events, ip), EndOf(events, t))
    ensures WindowsHoldAtMost(times + FailureTimes(s, events, ip), SPRAY_FAILURES)
    decreases |events|
  {
    if events == [] {
      assert times + [] == times;
    } else {
      var e, rest, after := RunHead(s, events, t, ip);
      StepRemembers(s, e, ip, times, t);
      RunRemembers(after, rest, ip, times + FailureTime(s, e, ip), e.now);
      Associate(times, FailureTime(s, e, ip), FailureTimes(after, rest, ip));
    }
  }

  const START := State(map[], map[])

  lemma NothingToRemember(ip: Ip, t: Instant)
    ensures Remembers(START.sprays, ip, [], t) && WindowsHoldAtMost([], SPRAY_FAILURES)
  {
  }

  lemma NothingBefore(times: seq<Instant>)
    ensures [] + times == times
  {
  }

  lemma RunFromStartRemembers(events: seq<Event>, start: Instant, ip: Ip, times: seq<Instant>)
    requires Timely(events, start) && SpraysNeverReset(START, events) && times == FailureTimes(START, events, ip)
    ensures Remembers(Run(START, events).sprays, ip, times, EndOf(events, start))
    ensures WindowsHoldAtMost(times, SPRAY_FAILURES)
  {
    NothingToRemember(ip, start);
    NothingBefore(times);
    RunRemembers(START, events, ip, [], start);
  }

  /**
   Over any run, logins at the same time included and across any number of
   sweeps, every half-open window of five minutes holds at most twenty counted
   failures of an address, as long as the address map is not reset.
   */
  lemma SprayBound(events: seq<Event>, start: Instant, ip: Ip, a: Instant)
    requires Timely(events, start) && SpraysNeverReset(START, events)
    ensures InWindow(FailureTimes(START, events, ip), a) <= 20
  {
    RunFromStartRemembers(events, start, ip, FailureTimes(START, events, ip));
  }

  /** The instants of all failures recorded for an address. */
  function RecordedTimes(events: seq<Event>, ip: Ip): seq<Instant> {
    if events == [] then []
    else (if events[0].Failure? && events[0].ip == ip then [events[0].now] else []) + RecordedTimes(events[1..], ip)
  }

  /** Where every login checks and records without another in between, every recorded failure counts. */
  lemma {:induction false} CheckedFailuresCount(s: State, events: seq<Event>, ip: Ip)
    requires ChecksFirst(s, events)
    ensures FailureTimes(s, events, ip) == RecordedTimes(events, ip)
    decreases |events|
  {
    if events != [] {
      var e := events[0];
      if e.Failure? {
        AllowedFailuresCount(s, e.ip, e.username, e.now);
      }
      CheckedFailuresCount(Step(s, e), events[1..], ip);
    }
  }

  lemma CheckedSprayBound(events: seq<Event>, start: Instant, ip: Ip, a: Instant)
    requires Timely(events, start) && SpraysNeverReset(START, events) && ChecksFirst(START, events)
    ensures InWindow(RecordedTimes(events, ip), a) <= 20
  {
    SprayBound(events, start, ip, a);
    CheckedFailuresCount(START, events, ip);
  }

  /**
   The bound is tight: the counted failure that fills a window locks the
   address for five minutes, whatever the username, and until the lock ends no
   sweep forgets it.
   */
  lemma FullWindowLocks(events: seq<Event>, start: Instant, s: State, last: Event,
                        a: Instant, anyone: string, later: Instant)
    requires Timely(events, start) && SpraysNeverReset(START, events) && s == Run(START, events)
    requires EndOf(events, start) <= last.now && CountsForAddress(s, last, last.ip)
    requires !ResetsSprays(s.sprays, last.ip, last.now)
    requires a <= last.now < a + 300.0
    requires InWindow(FailureTimes(START, events, last.ip), a) == 19
    requires last.now <= later < last.now + 300.0
    ensures Check(Step(s, last), last.ip, anyone, later).Rejected?
    ensures last.ip in SweepSprays(Step(s, last).sprays, later)
  {
    var times := FailureTimes(START, events, last.ip);
    RunFromStartRemembers(events, start, last.ip, times);
    InWindowAppend(times, last.now, a);
    FullWindowTrips(s.sprays, last.ip, times, EndOf(events, start), last.now, a);
    TrippedAddressIsLocked(s, last, anyone, later);
  }

  lemma CountedStep(s: State, e: Event)
    requires CountsForAddress(s, e, e.ip)
    ensures Step(s, e).sprays == RecordSpray(s.sprays, e.ip, e.now)
    ensures !IsLocked(SprayOf(s.sprays, e.ip).lockedUntil, e.now)
  {
  }

  /**
   And no address is locked for less: a failure that locks it is the last of
   twenty counted ones, all of the last five minutes.
   */
  lemma LockMeansTwenty(events: seq<Event>, start: Instant, s: State, last: Event,
                        before: seq<Instant>, times: seq<Instant>)
    requires Timely(events, start) && SpraysNeverReset(START, events) && s == Run(START, events)
    requires EndOf(events, start) <= last.now && CountsForAddress(s, last, last.ip)
    requires !ResetsSprays(s.sprays, last.ip, last.now)
    requires before == FailureTimes(START, events, last.ip) && times == before + [last.now]
    requires IsLocked(SprayOf(Step(s, last).sprays, last.ip).lockedUntil, last.now)
    ensures 20 <= |times|
    ensures forall i :: |times| - 20 <= i < |times| ==> last.now - 300.0 <= times[i] <= last.now
    ensures SprayOf(Step(s, last).sprays, last.ip).lockedUntil == Some(last.now + 300.0)
  {
    RunFromStartRemembers(events, start, last.ip, before);
    CountedStep(s, last);
    TripMeansTwenty(s.sprays, last.ip, before, EndOf(events, start), last.now, Step(s, last).sprays, times);
  }

  lemma TripMeansTwenty(sprays: Sprays, ip: Ip, times: seq<Instant>, t: Instant, now: Instant,
                        after: Sprays, all: seq<Instant>)
    requires Remembers(sprays, ip, times, t) && t <= now && !IsLocked(SprayOf(sprays, ip).lockedUntil, now)
    requires !ResetsSprays(sprays, ip, now) && after == RecordSpray(sprays, ip, now) && all == times + [now]
    requires IsLocked(SprayOf(after, ip).lockedUntil, now)
    ensures 20 <= |all|
    ensures forall i :: |all| - 20 <= i < |all| ==> now - 300.0 <= all[i] <= now
    ensures SprayOf(after, ip).lockedUntil == Some(now + 300.0)
  {
    var e := SprayOf(sprays, ip);
    var kept := Prune(e.recent + [now], now);
    assert SprayOf(SpraysRoom(sprays, ip, now), ip) == e;
    KeptIsTheEnd(e, times, kept, t, now);
    SortedAppend(times, t, now);
    assert e.recent + [now] == all[|times| - |e.recent|..];
    KeptIsRecent(e.recent + [now], now);
    TheEndIsRecent(all, kept, now);
  }

  lemma TheEndIsRecent(all: seq<Instant>, kept: seq<Instant>, now: Instant)
    requires 20 <= |kept| <= |all| && kept == all[|all| - |kept|..]
    requires forall i :: 0 <= i < |all| ==> all[i] <= now
    requires forall i :: 0 <= i < |kept| ==> now - 300.0 <= kept[i]
    ensures forall i :: |all| - 20 <= i < |all| ==> now - 300.0 <= all[i] <= now
  {
    forall i | |all| - 20 <= i < |all| ensures now - 300.0 <= all[i] {
      assert all[i] == kept[i - (|all| - |kept|)];
    }
  }

  /** What pruning keeps of sorted stamps is at most five minutes old. */
  lemma {:induction false} KeptIsRecent(recent: seq<Instant>, now: Instant)
    requires Sorted(recent) && forall i :: 0 <= i < |recent| ==> recent[i] <= now
    ensures forall i :: 0 <= i < |Prune(recent, now)| ==> now - 300.0 <= Prune(recent, now)[i]
  {
    if recent != [] && Since(now, recent[0]) > SPRAY_WINDOW {
      KeptIsRecent(recent[1..], now);
    }
  }

  lemma TrippedAddressIsLocked(s: State, last: Event, anyone: string, later: Instant)
    requires ReachesAddress(s, last) && later < last.now + SPRAY_LOCKOUT
    requires last.ip in RecordSpray(s.sprays, last.ip, last.now)
    requires RecordSpray(s.sprays, last.ip, last.now)[last.ip].lockedUntil == Some(last.now + SPRAY_LOCKOUT)
    ensures Check(Step(s, last), last.ip, anyone, later).Rejected?
    ensures last.ip in SweepSprays(Step(s, last).sprays, later)
  {
    assert Step(s, last).sprays == RecordSpray(s.sprays, last.ip, last.now);
  }

  lemma FullWindowTrips(sprays: Sprays, ip: Ip, times: seq<Instant>, t: Instant, now: Instant, a: Instant)
    requires Remembers(sprays, ip, times, t) && t <= now && !IsLocked(SprayOf(sprays, ip).lockedUntil, now)
    requires !ResetsSprays(sprays, ip, now)
    requires a <= now < a + SPRAY_WINDOW && InWindow(times + [now], a) == SPRAY_FAILURES
    ensures var after := RecordSpray(sprays, ip, now);
            ip in after && after[ip].lockedUntil == Some(now + SPRAY_LOCKOUT)
  {
    var e := SprayOf(sprays, ip);
    assert SprayOf(SpraysRoom(sprays, ip, now), ip) == e;
    WindowsWithNow(e, times, Prune(e.recent + [now], now), t, now);
  }
}
