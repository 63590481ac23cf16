/** How failures of one pair lock it, for how long, and what a sweep makes of it. */
module LoginLockouts {
  import opened Common
  import Text
  import opened LoginThrottle
  import opened LoginRuns

  // ---------------------------------------------------------------------
  // The failures that count
  // ---------------------------------------------------------------------

  /** Lockouts start at 30 seconds, double with every trip, and stay at 900 once they got there. */
  lemma LockoutsDouble(n: nat)
    requires 1 <= n
    ensures LockoutFor(1) == 30
    ensures LockoutFor(n + 1) == if 2 * LockoutFor(n) <= 900 then 2 * LockoutFor(n) else 900
    ensures 30 <= LockoutFor(n) <= LockoutFor(n + 1) <= 900
  {
    assert Shifted(0) == 1 && Shifted(1) == 2 && Shifted(2) == 4 && Shifted(3) == 8;
    assert Shifted(4) == 16 && Shifted(5) == 32 && Shifted(6) == 64;
  }

  /** The time the first `k` lockouts take together. */
  function LockoutTotal(k: nat): nat {
    if k == 0 then 0 else LockoutTotal(k - 1) + LockoutFor(k)
  }

  /** A failure that its pair counts: the pair is not locked when it is recorded. */
  predicate CountsForPair(s: State, e: Event, key: Key) {
    FailsPair(e) && KeyOf(e.ip, e.username) == key && !PairIsLocked(s.pairs, key, e.now)
  }

  predicate FailsPair(e: Event) {
    e.Failure? || e.PairHalf?
  }

  function PairTime(s: State, e: Event, key: Key): seq<Instant> {
    if CountsForPair(s, e, key) then [e.now] else []
  }

  /** The instants of the failures counted for a pair. */
  function PairTimes(s: State, events: seq<Event>, key: Key): seq<Instant>
    decreases |events|
  {
    if events == [] then [] else PairTime(s, events[0], key) + PairTimes(Step(s, events[0]), events[1..], key)
  }

  // ---------------------------------------------------------------------
  // What takes an entry away
  // ---------------------------------------------------------------------

  /** A failure of a new pair finds the map full, and `key` idle or the map too busy to sweep. */
  predicate Forgets(pairs: Pairs, other: Key, key: Key, now: Instant)
    requires key in pairs
  {
    && other !in pairs && |pairs| >= 10_000
    && (ResetsPairs(pairs, other, now)
        || (!IsLocked(pairs[key].lockedUntil, now) && Since(now, pairs[key].lastSeen) >= 900.0))
  }

  lemma FailureForgetsExactly(pairs: Pairs, other: Key, key: Key, now: Instant)
    requires key in pairs
    ensures key !in RecordPair(pairs, other, now) <==> Forgets(pairs, other, key, now)
    ensures other != key && key in RecordPair(pairs, other, now) ==> RecordPair(pairs, other, now)[key] == pairs[key]
  {
    assert RecordPair(pairs, other, now).Keys == PairsRoom(pairs, other, now).Keys + {other};
  }

  /** A success of the pair, or a failure of a new pair that forgets it. */
  predicate TakesAway(s: State, e: Event, key: Key)
    requires key in s.pairs
  {
    match e
    case Failure(ip, username, now) => Forgets(s.pairs, KeyOf(ip, username), key, now)
    case PairHalf(ip, username, now) => Forgets(s.pairs, KeyOf(ip, username), key, now)
    case AddressHalf(_, _) => false
    case Success(ip, username, _) => KeyOf(ip, username) == key
  }

  /** These are all the ways in which an entry goes. */
  lemma EntryGoesExactly(s: State, e: Event, key: Key)
    requires key in s.pairs
    ensures key !in Step(s, e).pairs <==> TakesAway(s, e, key)
  {
    if FailsPair(e) {
      FailureForgetsExactly(s.pairs, KeyOf(e.ip, e.username), key, e.now);
    }
  }

  /** What the next lockout of a pair will be, in seconds. */
  function NextLockout(pairs: Pairs, key: Key, now: Instant): nat {
    LockoutFor(PairOf(pairs, key, now).lockouts + 1)
  }

  /**
   A failure of another pair makes the next lockout of `key` shorter exactly
   when it forgets a pair that has been locked before; otherwise it leaves it.
   */
  lemma EscalationIsForgotten(pairs: Pairs, other: Key, key: Key, now: Instant)
    requires key in pairs && other != key
    ensures NextLockout(RecordPair(pairs, other, now), key, now) < NextLockout(pairs, key, now)
       <==> Forgets(pairs, other, key, now) && pairs[key].lockouts >= 1
    ensures !Forgets(pairs, other, key, now) ==>
              NextLockout(RecordPair(pairs, other, now), key, now) == NextLockout(pairs, key, now)
  {
    FailureForgetsExactly(pairs, other, key, now);
    LaterLockoutsAreLonger(pairs[key].lockouts);
  }

  lemma LaterLockoutsAreLonger(n: nat)
    ensures LockoutFor(1) <= LockoutFor(n + 1) && (LockoutFor(1) < LockoutFor(n + 1) <==> n >= 1)
  {
    assert Shifted(0) == 1 && Shifted(1) == 2 && Shifted(2) == 4 && Shifted(3) == 8;
    assert Shifted(4) == 16 && Shifted(5) == 32 && Shifted(6) == 64;
  }

  /** Pairs that failed once, long ago. */
  function Crowd(n: nat, name: string): Pairs {
    if n == 0 then map[] else Crowd(n - 1, name)[(n, name) := PairEntry(1, 0, None, 0.0)]
  }

  lemma {:induction false} CrowdIs(n: nat, name: string)
    ensures |Crowd(n, name)| == n
    ensures forall k :: k in Crowd(n, name) ==> 1 <= k.0 <= n
    decreases n
  {
    if n > 0 {
      CrowdIs(n - 1, name);
    }
  }

  /**
   A pair locked once and idle for fifteen minutes, in a map full of others:
   its next lockout was to be a minute, and is half a minute once a newcomer
   has failed.
   */
  lemma SweepForgetsALockout()
    ensures var victim, newcomer := (0, "admin"), (0, "newcomer");
            var pairs := Crowd(MAX_TRACKED_KEYS - 1, "crowd")[victim := PairEntry(0, 1, Some(30.0), 0.0)];
            && |pairs| == MAX_TRACKED_KEYS
            && NextLockout(pairs, victim, 930.0) == 60
            && NextLockout(RecordPair(pairs, newcomer, 930.0), victim, 930.0) == 30
  {
    var victim, newcomer := (0, "admin"), (0, "newcomer");
    var pairs := FullMap();
    assert newcomer.1 != victim.1;
    FailureForgetsExactly(pairs, newcomer, victim, 930.0);
    assert Shifted(0) == 1 && Shifted(1) == 2;
  }

  lemma FullMap() returns (pairs: Pairs)
    ensures pairs == Crowd(MAX_TRACKED_KEYS - 1, "crowd")[(0, "admin") := PairEntry(0, 1, Some(30.0), 0.0)]
    ensures |pairs| == MAX_TRACKED_KEYS && (0, "newcomer") !in pairs
  {
    var n: nat := MAX_TRACKED_KEYS - 1;
    CrowdIs(n, "crowd");
    pairs := Crowd(n, "crowd")[(0, "admin") := PairEntry(0, 1, Some(30.0), 0.0)];
    assert "newcomer"[0] != "admin"[0];
  }

  lemma {:induction false} RunOn(s: State, events: seq<Event>, last: Event)
    ensures Run(s, events + [last]) == Step(Run(s, events), last)
    decreases |events|
  {
    if events == [] {
      assert events + [last] == [last] && [last][1..] == [];
    } else {
      assert (events + [last])[1..] == events[1..] + [last];
      RunOn(Step(s, events[0]), events[1..], last);
    }
  }

  lemma FirstFailureOf(pairs: Pairs, key: Key, now: Instant)
    requires key !in pairs && |pairs| < MAX_TRACKED_KEYS
    ensures RecordPair(pairs, key, now) == pairs[key := PairEntry(1, 0, None, now)]
  {
  }

  lemma NextFailureOf(pairs: Pairs, key: Key, now: Instant)
    requires key in pairs && pairs[key].lockedUntil == None
    ensures RecordPair(pairs, key, now) == pairs[key := CountFailure(pairs[key], now)]
  {
  }

  predicate AllAt(events: seq<Event>, t: Instant) {
    forall i :: 0 <= i < |events| ==> events[i].now == t
  }

  /** What one more failure makes of the pairs of a run. */
  lemma FailsNext(s: State, events: seq<Event>, ip: Ip, name: string, pairs: Pairs) returns (more: seq<Event>)
    requires AllAt(events, 0.0) && Run(s, events).pairs == pairs && Text.Lowercase(name) == name
    ensures more == events + [Failure(ip, name, 0.0)] && AllAt(more, 0.0)
    ensures Run(s, more).pairs == RecordPair(pairs, (ip, name), 0.0)
  {
    more := events + [Failure(ip, name, 0.0)];
    RunOn(s, events, Failure(ip, name, 0.0));
  }

  lemma FailsFirst(s: State, events: seq<Event>, ip: Ip, name: string, pairs: Pairs) returns (more: seq<Event>)
    requires AllAt(events, 0.0) && Run(s, events).pairs == pairs && Text.Lowercase(name) == name
    requires (ip, name) !in pairs && |pairs| < MAX_TRACKED_KEYS
    ensures more == events + [Failure(ip, name, 0.0)] && AllAt(more, 0.0)
    ensures Run(s, more).pairs == pairs[(ip, name) := PairEntry(1, 0, None, 0.0)]
  {
    more := FailsNext(s, events, ip, name, pairs);
    FirstFailureOf(pairs, (ip, name), 0.0);
  }

  /** One failure each from `n` addresses. */
  lemma {:induction false} CrowdIsReached(s: State, n: nat, name: string) returns (events: seq<Event>)
    requires s.pairs == map[] && n < MAX_TRACKED_KEYS && Text.Lowercase(name) == name
    ensures AllAt(events, 0.0) && Run(s, events).pairs == Crowd(n, name)
    decreases n
  {
    if n == 0 {
      events := [];
    } else {
      events := CrowdIsReached(s, n - 1, name);
      CrowdIs(n - 1, name);
      events := FailsFirst(s, events, n, name, Crowd(n - 1, name));
    }
  }

  lemma FailsAgain(s: State, events: seq<Event>, ip: Ip, name: string, pairs: Pairs, k: nat) returns (more: seq<Event>)
    requires AllAt(events, 0.0) && Text.Lowercase(name) == name && 2 <= k <= MAX_FAILURES
    requires Run(s, events).pairs == pairs[(ip, name) := FailedAtOnce(k - 1)]
    ensures AllAt(more, 0.0) && Run(s, more).pairs == pairs[(ip, name) := FailedAtOnce(k)]
  {
    var failed := pairs[(ip, name) := FailedAtOnce(k - 1)];
    more := FailsNext(s, events, ip, name, failed);
    NextFailureOf(failed, (ip, name), 0.0);
    assert failed[(ip, name) := FailedAtOnce(k)] == pairs[(ip, name) := FailedAtOnce(k)];
  }

  /** The first failures of a pair, each on top of the one before. */
  lemma FailsOften(s: State, events: seq<Event>, pairs: Pairs, ip: Ip, name: string, k: nat) returns (more: seq<Event>)
    requires AllAt(events, 0.0) && Run(s, events).pairs == pairs && Text.Lowercase(name) == name
    requires (ip, name) !in pairs && |pairs| < MAX_TRACKED_KEYS && 1 <= k <= MAX_FAILURES
    ensures AllAt(more, 0.0)
    ensures Run(s, more).pairs == pairs[(ip, name) := FailedAtOnce(k)]
  {
    if k == 1 {
      more := FailsFirst(s, events, ip, name, pairs);
    } else {
      more := FailsOften(s, events, pairs, ip, name, k - 1);
      more := FailsAgain(s, more, ip, name, pairs, k);
    }
  }

  /** The entry of a pair that has failed `k` times at instant 0. */
  function FailedAtOnce(k: nat): PairEntry {
    if k < MAX_FAILURES then PairEntry(k, 0, None, 0.0)
    else PairEntry(0, 1, Some(LockoutFor(1) as real), 0.0)
  }

  /** The full map in which a sweep forgets a lockout is reached by 10,004 failures at one instant. */
  lemma FullMapIsReached(pairs: Pairs)
    requires pairs == Crowd(MAX_TRACKED_KEYS - 1, "crowd")[(0, "admin") := PairEntry(0, 1, Some(30.0), 0.0)]
    ensures exists events :: Timely(events, 0.0) && Run(START, events).pairs == pairs
  {
    var n: nat, crowd, name := MAX_TRACKED_KEYS - 1, "crowd", "admin";
    Text.LowercaseIs(crowd, crowd);
    Text.LowercaseIs(name, name);
    var before := CrowdIsReached(START, n, crowd);
    CrowdIs(n, crowd);
    var events := FailsOften(START, before, Crowd(n, crowd), 0, name, MAX_FAILURES);
    assert LockoutFor(1) == LOCKOUT_BASE by {
      LockoutsDouble(1);
    }
    TimelyAtOnce(events, 0.0);
  }

  lemma {:induction false} TimelyAtOnce(events: seq<Event>, t: Instant)
    requires AllAt(events, t)
    ensures Timely(events, t)
  {
    if events != [] {
      TimelyAtOnce(events[1..], t);
    }
  }

  // ---------------------------------------------------------------------
  // The lockout bound of an entry that stays
  // ---------------------------------------------------------------------

  /** No event takes the pair's entry away. */
  predicate KeepsPair(s: State, events: seq<Event>, key: Key)
    decreases |events|
  {
    events == []
    || (&& (key in s.pairs ==> !TakesAway(s, events[0], key))
        && KeepsPair(Step(s, events[0]), events[1..], key))
  }

  /** What the entry of a pair says about the failures counted against it. */
  predicate CountsExactly(e: PairEntry, times: seq<Instant>) {
    && times != []
    && e.failures == |times| % 5 && e.lockouts == |times| / 5
    && e.lockedUntil == (if e.lockouts == 0 then None
                         else Some(times[5 * e.lockouts - 1] + LockoutFor(e.lockouts) as real))
  }

  predicate SpansLockouts(times: seq<Instant>) {
    times != [] ==> LockoutTotal((|times| - 1) / 5) as real <= times[|times| - 1] - times[0]
  }

  ghost predicate PairRemembers(pairs: Pairs, key: Key, times: seq<Instant>, t: Instant) {
    && (if key in pairs then CountsExactly(pairs[key], times) else times == [])
    && SpansLockouts(times) && (times != [] ==> times[|times| - 1] <= t)
  }

  lemma NextCount(n: nat)
    ensures if n % MAX_FAILURES + 1 >= MAX_FAILURES
            then (n + 1) % MAX_FAILURES == 0 && (n + 1) / MAX_FAILURES == n / MAX_FAILURES + 1
                 && n + 1 == MAX_FAILURES * (n / MAX_FAILURES + 1)
            else (n + 1) % MAX_FAILURES == n % MAX_FAILURES + 1 && (n + 1) / MAX_FAILURES == n / MAX_FAILURES
    ensures 1 <= n ==> if n % MAX_FAILURES == 0
            then n / MAX_FAILURES == (n - 1) / MAX_FAILURES + 1 && n == MAX_FAILURES * (n / MAX_FAILURES)
            else n / MAX_FAILURES == (n - 1) / MAX_FAILURES
  {
  }

  lemma CountedExactly(e: PairEntry, times: seq<Instant>, now: Instant)
    requires CountsExactly(e, times)
    ensures CountsExactly(CountFailure(e, now), times + [now])
  {
    NextCount(|times|);
    var all := times + [now];
    if e.lockouts > 0 {
      assert all[MAX_FAILURES * e.lockouts - 1] == times[MAX_FAILURES * e.lockouts - 1];
    }
  }

  /** A failure counted against an unlocked pair comes after the lockout that its predecessors cost. */
  lemma CountSpansLockouts(e: PairEntry, times: seq<Instant>, now: Instant)
    requires CountsExactly(e, times) && SpansLockouts(times) && times[|times| - 1] <= now
    requires !IsLocked(e.lockedUntil, now)
    ensures SpansLockouts(times + [now])
  {
    NextCount(|times|);
    var all := times + [now];
    assert all[0] == times[0] && all[|all| - 1] == now;
  }

  lemma CountKeepsPair(e: PairEntry, times: seq<Instant>, now: Instant)
    requires CountsExactly(e, times) && SpansLockouts(times) && times[|times| - 1] <= now
    requires !IsLocked(e.lockedUntil, now)
    ensures CountsExactly(CountFailure(e, now), times + [now]) && SpansLockouts(times + [now])
  {
    CountedExactly(e, times, now);
    CountSpansLockouts(e, times, now);
  }

  lemma FirstCount(now: Instant)
    ensures CountsExactly(CountFailure(PairEntry(0, 0, None, now), now), [now]) && SpansLockouts([now])
  {
  }

  /** A failure recorded while the pair is locked only moves the time it was last seen. */
  lemma LockedPairStands(pairs: Pairs, key: Key, now: Instant)
    requires PairIsLocked(pairs, key, now)
    ensures RecordPair(pairs, key, now) == pairs[key := pairs[key].(lastSeen := now)]
  {
  }

  lemma CountedRemembers(pairs: Pairs, key: Key, times: seq<Instant>, t: Instant, now: Instant)
    requires PairRemembers(pairs, key, times, t) && t <= now && !PairIsLocked(pairs, key, now)
    ensures PairRemembers(RecordPair(pairs, key, now), key, times + [now], now)
  {
    var room := PairsRoom(pairs, key, now);
    assert PairOf(room, key, now) == PairOf(pairs, key, now);
    if key in pairs {
      CountKeepsPair(pairs[key], times, now);
    } else {
      FirstCount(now);
      assert times + [now] == [now];
    }
  }

  lemma OtherFailureRemembers(pairs: Pairs, other: Key, key: Key, times: seq<Instant>, t: Instant, now: Instant)
    requires PairRemembers(pairs, key, times, t) && t <= now && other != key
    requires key in pairs ==> !Forgets(pairs, other, key, now)
    ensures PairRemembers(RecordPair(pairs, other, now), key, times, now)
  {
    if key in pairs {
      FailureForgetsExactly(pairs, other, key, now);
    } else {
      assert key !in PairsRoom(pairs, other, now);
    }
  }

  lemma StepKeepsPair(s: State, e: Event, key: Key, times: seq<Instant>, t: Instant)
    requires PairRemembers(s.pairs, key, times, t) && t <= e.now
    requires key in s.pairs ==> !TakesAway(s, e, key)
    ensures PairRemembers(Step(s, e).pairs, key, times + PairTime(s, e, key), e.now)
  {
    assert times + [] == times;
    if FailsPair(e) {
      if KeyOf(e.ip, e.username) != key {
        OtherFailureRemembers(s.pairs, KeyOf(e.ip, e.username), key, times, t, e.now);
      } else if PairIsLocked(s.pairs, key, e.now) {
        LockedPairStands(s.pairs, key, e.now);
      } else {
        CountedRemembers(s.pairs, key, times, t, e.now);
      }
    }
  }

  lemma {:induction false} RunKeepsPair(s: State, events: seq<Event>, key: Key, times: seq<Instant>, t: Instant)
    requires PairRemembers(s.pairs, key, times, t)
    requires Timely(events, t) && KeepsPair(s, events, key)
    ensures PairRemembers(Run(s, events).pairs, key, times + PairTimes(s, events, key), EndOf(events, t))
    decreases |events|
  {
    if events == [] {
      assert times + [] == times;
    } else {
      var e, rest, after := PairRunHead(s, events, t, key);
      StepKeepsPair(s, e, key, times, t);
      RunKeepsPair(after, rest, key, times + PairTime(s, e, key), e.now);
      Associate(times, PairTime(s, e, key), PairTimes(after, rest, key));
    }
  }

  lemma PairRunHead(s: State, events: seq<Event>, t: Instant, key: Key)
    returns (e: Event, rest: seq<Event>, after: State)
    requires events != [] && Timely(events, t)
    ensures e == events[0] && rest == events[1..] && after == Step(s, e)
    ensures t <= e.now && Run(s, events) == Run(after, rest) && Timely(rest, e.now)
    ensures KeepsPair(s, events, key) ==> (key in s.pairs ==> !TakesAway(s, e, key)) && KeepsPair(after, rest, key)
    ensures NeverCleared(s, events, key) ==> !Clears(s, e, key) && NeverCleared(after, rest, key)
    ensures PairTimes(s, events, key) == PairTime(s, e, key) + PairTimes(after, rest, key)
    ensures EndOf(rest, e.now) == EndOf(events, t)
  {
    e, rest, after := events[0], events[1..], Step(s, events[0]);
  }

  /**
   From a state that does not know a pair yet, N failures counted against it
   span at least the first (N-1)/5 lockouts together, as long as nothing takes
   its entry away. Logins at the same time, and failures recorded while the
   pair or its address is locked, are included.
   */
  lemma PairLockoutBound(s: State, events: seq<Event>, start: Instant, key: Key)
    requires key !in s.pairs && Timely(events, start) && KeepsPair(s, events, key)
    ensures SpansLockouts(PairTimes(s, events, key))
  {
    NothingBefore(PairTimes(s, events, key));
    RunKeepsPair(s, events, key, [], start);
  }

  /** The instants of all failures recorded for a pair. */
  function RecordedPairTimes(events: seq<Event>, key: Key): seq<Instant> {
    if events == [] then []
    else
      (if events[0].Failure? && KeyOf(events[0].ip, events[0].username) == key then [events[0].now] else [])
      + RecordedPairTimes(events[1..], key)
  }

  /** Where every login checks and records without another in between, all recorded failures span the lockouts. */
  lemma CheckedPairLockoutBound(s: State, events: seq<Event>, start: Instant, key: Key)
    requires key !in s.pairs && Timely(events, start) && KeepsPair(s, events, key) && ChecksFirst(s, events)
    ensures SpansLockouts(RecordedPairTimes(events, key))
  {
    PairLockoutBound(s, events, start, key);
    CheckedPairFailuresCount(s, events, key);
  }

  lemma {:induction false} CheckedPairFailuresCount(s: State, events: seq<Event>, key: Key)
    requires ChecksFirst(s, events)
    ensures PairTimes(s, events, key) == RecordedPairTimes(events, key)
    decreases |events|
  {
    if events != [] {
      var e := events[0];
      if e.Failure? {
        AllowedFailuresCount(s, e.ip, e.username, e.now);
      }
      CheckedPairFailuresCount(Step(s, e), events[1..], key);
    }
  }

  // ---------------------------------------------------------------------
  // The lockout bound across sweeps
  // ---------------------------------------------------------------------

  /** A success of the pair, or a reset of the whole map. */
  predicate Clears(s: State, e: Event, key: Key) {
    match e
    case Failure(ip, username, now) => ResetsPairs(s.pairs, KeyOf(ip, username), now)
    case PairHalf(ip, username, now) => ResetsPairs(s.pairs, KeyOf(ip, username), now)
    case AddressHalf(_, _) => false
    case Success(ip, username, _) => KeyOf(ip, username) == key
  }

  predicate NeverCleared(s: State, events: seq<Event>, key: Key)
    decreases |events|
  {
    events == [] || (!Clears(s, events[0], key) && NeverCleared(Step(s, events[0]), events[1..], key))
  }

  /** The lockouts that `n` failures have cost, the one that the last of them may have just begun included. */
  function Rounds(n: nat): nat {
    (n + 4) / 5
  }

  /** The time that so many shortest lockouts take. */
  function Toll(rounds: nat): real {
    (30 * rounds) as real
  }

  predicate SpansBaseLockouts(times: seq<Instant>) {
    times != [] ==> Toll((|times| - 1) / 5) <= times[|times| - 1] - times[0]
  }

  /** What an entry says about the pace of all failures counted for its pair, before and after being forgotten. */
  predicate EntryPaces(e: PairEntry, times: seq<Instant>) {
    && times != [] && e.failures < MAX_FAILURES && e.failures <= |times| && times[|times| - 1] <= e.lastSeen
    && if e.failures == 0 then e.lockedUntil.Some? && times[0] + Toll(Rounds(|times|)) <= e.lockedUntil.value
       else times[0] + Toll(Rounds(|times| - e.failures)) <= times[|times| - 1]
  }

  predicate PairPaces(pairs: Pairs, key: Key, times: seq<Instant>, t: Instant) {
    && SpansBaseLockouts(times) && (times != [] ==> times[|times| - 1] <= t)
    && if key in pairs then EntryPaces(pairs[key], times)
       else times != [] ==> times[0] + Toll(Rounds(|times|)) <= t
  }

  lemma NextRound(n: nat, f: nat)
    requires f <= n && f < MAX_FAILURES
    ensures n / MAX_FAILURES <= Rounds(n - f) <= Rounds(n) <= Rounds(n - f) + 1
    ensures f == MAX_FAILURES - 1 ==> Rounds(n + 1) == Rounds(n - f) + 1
  {
  }

  /** An unlocked pair counts a failure. */
  lemma CountPaces(e: PairEntry, times: seq<Instant>, now: Instant)
    requires EntryPaces(e, times) && times[|times| - 1] <= now && !IsLocked(e.lockedUntil, now)
    ensures EntryPaces(CountFailure(e, now), times + [now]) && SpansBaseLockouts(times + [now])
  {
    var all := times + [now];
    assert all[0] == times[0] && all[|all| - 1] == now;
    NextRound(|times|, e.failures);
    LaterLockoutsAreLonger(e.lockouts);
    assert LockoutFor(1) == LOCKOUT_BASE;
  }

  /** A pair that was forgotten, or never known, counts its first failure. */
  lemma FirstCountPaces(times: seq<Instant>, t: Instant, now: Instant)
    requires t <= now && (times != [] ==> times[0] + Toll(Rounds(|times|)) <= t)
    ensures EntryPaces(CountFailure(PairEntry(0, 0, None, now), now), times + [now]) && SpansBaseLockouts(times + [now])
  {
    var all := times + [now];
    assert all[|all| - 1] == now && (times != [] ==> all[0] == times[0]);
    NextRound(|times|, 0);
  }

  /** Fifteen idle minutes outweigh the failures that the entry forgets. */
  lemma ForgottenPaces(e: PairEntry, times: seq<Instant>, now: Instant)
    requires EntryPaces(e, times) && !IsLocked(e.lockedUntil, now) && Since(now, e.lastSeen) >= IDLE_HORIZON
    ensures times[0] + Toll(Rounds(|times|)) <= now
  {
    NextRound(|times|, e.failures);
  }

  lemma CountedPaces(pairs: Pairs, key: Key, times: seq<Instant>, t: Instant, now: Instant)
    requires PairPaces(pairs, key, times, t) && t <= now && !PairIsLocked(pairs, key, now)
    ensures PairPaces(RecordPair(pairs, key, now), key, times + [now], now)
  {
    var room := PairsRoom(pairs, key, now);
    assert PairOf(room, key, now) == PairOf(pairs, key, now);
    if key in pairs {
      CountPaces(pairs[key], times, now);
    } else {
      FirstCountPaces(times, t, now);
    }
  }

  lemma OtherFailurePaces(pairs: Pairs, other: Key, key: Key, times: seq<Instant>, t: Instant, now: Instant)
    requires PairPaces(pairs, key, times, t) && t <= now && other != key && !ResetsPairs(pairs, other, now)
    ensures PairPaces(RecordPair(pairs, other, now), key, times, now)
  {
    if key !in pairs {
      assert key !in PairsRoom(pairs, other, now);
    } else {
      FailureForgetsExactly(pairs, other, key, now);
      if Forgets(pairs, other, key, now) {
        ForgottenPaces(pairs[key], times, now);
      }
    }
  }

  lemma StepPaces(s: State, e: Event, key: Key, times: seq<Instant>, t: Instant)
    requires PairPaces(s.pairs, key, times, t) && t <= e.now && !Clears(s, e, key)
    ensures PairPaces(Step(s, e).pairs, key, times + PairTime(s, e, key), e.now)
  {
    assert times + [] == times;
    if FailsPair(e) {
      if KeyOf(e.ip, e.username) != key {
        OtherFailurePaces(s.pairs, KeyOf(e.ip, e.username), key, times, t, e.now);
      } else if PairIsLocked(s.pairs, key, e.now) {
        LockedPairStands(s.pairs, key, e.now);
      } else {
        CountedPaces(s.pairs, key, times, t, e.now);
      }
    }
  }

  lemma {:induction false} RunPaces(s: State, events: seq<Event>, key: Key, times: seq<Instant>, t: Instant)
    requires PairPaces(s.pairs, key, times, t)
    requires Timely(events, t) && NeverCleared(s, events, key)
    ensures PairPaces(Run(s, events).pairs, key, times + PairTimes(s, events, key), EndOf(events, t))
    decreases |events|
  {
    if events == [] {
      assert times + [] == times;
    } else {
      var e, rest, after := PairRunHead(s, events, t, key);
      StepPaces(s, e, key, times, t);
      RunPaces(after, rest, key, times + PairTime(s, e, key), e.now);
      Associate(times, PairTime(s, e, key), PairTimes(after, rest, key));
    }
  }

  /**
   However often sweeps forget the pair, N failures counted against it span at
   least (N-1)/5 lockouts of the shortest kind, as long as it never succeeds
   and the map is not reset.
   */
  lemma SweptPairLockoutBound(s: State, events: seq<Event>, start: Instant, key: Key)
    requires key !in s.pairs && Timely(events, start) && NeverCleared(s, events, key)
    ensures SpansBaseLockouts(PairTimes(s, events, key))
  {
    NothingBefore(PairTimes(s, events, key));
    RunPaces(s, events, key, [], start);
  }
}
