/**
 The failed-login throttle of src/rate_limit.rs: escalating locks on an
 (address, username) pair and a sliding spray window on the address.
 Instants and durations are real numbers of seconds.
 */
module LoginThrottle {
  import opened Common
  import Text

  type Ip = nat
  type Instant = real
  type Key = (Ip, string)

  const MAX_FAILURES := 5
  const LOCKOUT_BASE := 30
  const LOCKOUT_MAX := 900
  const SPRAY_FAILURES := 20
  const SPRAY_WINDOW := 300.0
  const SPRAY_LOCKOUT := 300.0
  const IDLE_HORIZON := 900.0
  const MAX_TRACKED_KEYS := 10_000

  datatype Decision = Allowed(remaining: nat) | Rejected(retryAfterSecs: nat)

  datatype PairEntry = PairEntry(failures: nat, lockouts: nat, lockedUntil: Option<Instant>, lastSeen: Instant)

  datatype SprayEntry = SprayEntry(recent: seq<Instant>, lockedUntil: Option<Instant>)

  type Pairs = map<Key, PairEntry>
  type Sprays = map<Ip, SprayEntry>

  datatype State = State(pairs: Pairs, sprays: Sprays)

  // ---------------------------------------------------------------------
  // The operations
  // ---------------------------------------------------------------------

  function Since(now: Instant, stamp: Instant): real {
    if stamp < now then now - stamp else 0.0
  }

  predicate IsLocked(until: Option<Instant>, now: Instant) {
    until.Some? && now < until.value
  }

  /** The lockout of the n-th consecutive trip, in seconds. */
  function LockoutFor(n: nat): nat {
    var shift := if n == 0 then 0 else if n - 1 <= 6 then n - 1 else 6;
    var secs := LOCKOUT_BASE * Shifted(shift);
    if secs <= LOCKOUT_MAX then secs else LOCKOUT_MAX
  }

  /** One shifted to the left. */
  function Shifted(shift: nat): nat {
    if shift == 0 then 1 else 2 * Shifted(shift - 1)
  }

  /** Whole seconds, rounded down, but at least one. */
  function SecondsUntil(until: Instant, now: Instant): nat {
    var secs := Since(until, now).Floor;
    if secs < 1 then 1 else secs
  }

  function KeyOf(ip: Ip, username: string): Key {
    (ip, Text.Lowercase(username))
  }

  function Check(s: State, ip: Ip, username: string, now: Instant): Decision {
    var key := KeyOf(ip, username);
    if ip in s.sprays && IsLocked(s.sprays[ip].lockedUntil, now) then
      Rejected(SecondsUntil(s.sprays[ip].lockedUntil.value, now))
    else if key in s.pairs then
      if IsLocked(s.pairs[key].lockedUntil, now) then Rejected(SecondsUntil(s.pairs[key].lockedUntil.value, now))
      else Allowed(if s.pairs[key].failures <= MAX_FAILURES then MAX_FAILURES - s.pairs[key].failures else 0)
    else Allowed(MAX_FAILURES)
  }

  function SweepPairs(pairs: Pairs, now: Instant): Pairs {
    map k | k in pairs && (IsLocked(pairs[k].lockedUntil, now) || Since(now, pairs[k].lastSeen) < IDLE_HORIZON)
      :: pairs[k]
  }

  /** An address worth keeping: locked, or with its newest failure inside the window. */
  predicate SprayIsFresh(e: SprayEntry, now: Instant) {
    IsLocked(e.lockedUntil, now) || (e.recent != [] && Since(now, e.recent[|e.recent| - 1]) < SPRAY_WINDOW)
  }

  function SweepSprays(sprays: Sprays, now: Instant): Sprays {
    map ip | ip in sprays && SprayIsFresh(sprays[ip], now) :: sprays[ip]
  }

  /** The failure finds the pair map full of other pairs worth keeping and clears it. */
  predicate ResetsPairs(pairs: Pairs, key: Key, now: Instant) {
    key !in pairs && |pairs| >= MAX_TRACKED_KEYS && |SweepPairs(pairs, now)| >= MAX_TRACKED_KEYS
  }

  function PairsRoom(pairs: Pairs, key: Key, now: Instant): Pairs {
    if key !in pairs && |pairs| >= MAX_TRACKED_KEYS then
      if ResetsPairs(pairs, key, now) then map[] else SweepPairs(pairs, now)
    else pairs
  }

  /** The failure finds the spray map full of other, still fresh addresses and clears it. */
  predicate ResetsSprays(sprays: Sprays, ip: Ip, now: Instant) {
    ip !in sprays && |sprays| >= MAX_TRACKED_KEYS && |SweepSprays(sprays, now)| >= MAX_TRACKED_KEYS
  }

  function SpraysRoom(sprays: Sprays, ip: Ip, now: Instant): Sprays {
    if ip !in sprays && |sprays| >= MAX_TRACKED_KEYS then
      if ResetsSprays(sprays, ip, now) then map[] else SweepSprays(sprays, now)
    else sprays
  }

  /** A failure counted against a pair that is not locked. */
  function CountFailure(e: PairEntry, now: Instant): PairEntry {
    if e.failures + 1 >= MAX_FAILURES then
      PairEntry(0, e.lockouts + 1, Some(now + LockoutFor(e.lockouts + 1) as real), now)
    else PairEntry(e.failures + 1, e.lockouts, e.lockedUntil, now)
  }

  /** Drops the stamps that have left the window, oldest first. */
  function Prune(recent: seq<Instant>, now: Instant): seq<Instant> {
    if recent != [] && Since(now, recent[0]) > SPRAY_WINDOW then Prune(recent[1..], now) else recent
  }

  /** A failure counted against an address. */
  function CountSpray(e: SprayEntry, now: Instant): SprayEntry {
    if IsLocked(e.lockedUntil, now) then e
    else
      var recent := Prune(e.recent + [now], now);
      if |recent| >= SPRAY_FAILURES then SprayEntry([], Some(now + SPRAY_LOCKOUT))
      else e.(recent := recent)
  }

  function PairOf(pairs: Pairs, key: Key, now: Instant): PairEntry {
    if key in pairs then pairs[key] else PairEntry(0, 0, None, now)
  }

  function SprayOf(sprays: Sprays, ip: Ip): SprayEntry {
    if ip in sprays then sprays[ip] else SprayEntry([], None)
  }

  /** The pair half of a recorded failure; a pair already locked is only touched. */
  function RecordPair(pairs: Pairs, key: Key, now: Instant): Pairs {
    var room := PairsRoom(pairs, key, now);
    var entry := PairOf(room, key, now);
    room[key := if IsLocked(entry.lockedUntil, now) then entry.(lastSeen := now) else CountFailure(entry, now)]
  }

  predicate PairIsLocked(pairs: Pairs, key: Key, now: Instant) {
    key in pairs && IsLocked(pairs[key].lockedUntil, now)
  }

  /** The address half of a recorded failure. */
  function RecordSpray(sprays: Sprays, ip: Ip, now: Instant): Sprays {
    var room := SpraysRoom(sprays, ip, now);
    room[ip := CountSpray(SprayOf(room, ip), now)]
  }

  function RecordFailure(s: State, ip: Ip, username: string, now: Instant): State {
    var key := KeyOf(ip, username);
    State(RecordPair(s.pairs, key, now),
          if PairIsLocked(s.pairs, key, now) then s.sprays else RecordSpray(s.sprays, ip, now))
  }

  function ForgetPair(s: State, ip: Ip, username: string): State {
    s.(pairs := s.pairs - {KeyOf(ip, username)})
  }

  /** The counters of a pair that is not locked, stepped through one more failure. */
  method CountConsecutive(touched: PairEntry, now: Instant) returns (entry: PairEntry)
    requires touched.lastSeen == now
    ensures entry == CountFailure(touched, now)
  {
    entry := touched.(failures := touched.failures + 1);
    if entry.failures >= MAX_FAILURES {
      entry := entry.(lockouts := entry.lockouts + 1);
      entry := entry.(lockedUntil := Some(now + LockoutFor(entry.lockouts) as real));
      entry := entry.(failures := 0);
    }
  }

  /** The sliding window of an address, pushed at the back and popped at the front. */
  method CountInWindow(before: SprayEntry, now: Instant) returns (entry: SprayEntry)
    ensures entry == CountSpray(before, now)
  {
    entry := before;
    if entry.lockedUntil.Some? && entry.lockedUntil.value > now {
      return;
    }
    entry := entry.(recent := entry.recent + [now]);
    while entry.recent != [] && Since(now, entry.recent[0]) > SPRAY_WINDOW
      invariant entry.lockedUntil == before.lockedUntil
      invariant Prune(entry.recent, now) == Prune(before.recent + [now], now)
      decreases |entry.recent|
    {
      entry := entry.(recent := entry.recent[1..]);
    }
    if |entry.recent| >= SPRAY_FAILURES {
      entry := SprayEntry([], Some(now + SPRAY_LOCKOUT));
    }
  }

  class LoginThrottle {
    var pairs: Pairs
    var sprays: Sprays

    ghost function Contents(): State
      reads this
    {
      State(pairs, sprays)
    }

    ghost predicate Valid()
      reads this
    {
      |pairs| <= MAX_TRACKED_KEYS && |sprays| <= MAX_TRACKED_KEYS
    }

    constructor ()
      ensures Valid() && Contents() == State(map[], map[])
    {
      pairs, sprays := map[], map[];
    }

    method CheckAt(ip: Ip, username: string, now: Instant) returns (d: Decision)
      ensures d == Check(Contents(), ip, username, now)
    {
      var name := Text.Lowercase(username);
      if ip in sprays {
        var until := sprays[ip].lockedUntil;
        if until.Some? && until.value > now {
          return Rejected(SecondsUntil(until.value, now));
        }
      }
      if (ip, name) in pairs {
        var entry := pairs[(ip, name)];
        if entry.lockedUntil.Some? && entry.lockedUntil.value > now {
          return Rejected(SecondsUntil(entry.lockedUntil.value, now));
        }
        return Allowed(if entry.failures <= MAX_FAILURES then MAX_FAILURES - entry.failures else 0);
      }
      d := Allowed(MAX_FAILURES);
    }

    method RecordFailureAt(ip: Ip, username: string, now: Instant)
      requires Valid()
      modifies this
      ensures Valid() && Contents() == RecordFailure(old(Contents()), ip, username, now)
    {
      var locked := CountPair((ip, Text.Lowercase(username)), now);
      if !locked {
        CountAddress(ip, now);
      }
    }

    /** The pair half of a recorded failure; tells whether the pair was already locked. */
    method CountPair(key: Key, now: Instant) returns (locked: bool)
      requires Valid()
      modifies this`pairs
      ensures Valid()
      ensures locked == PairIsLocked(old(pairs), key, now) && pairs == RecordPair(old(pairs), key, now)
    {
      if key !in pairs && |pairs| >= MAX_TRACKED_KEYS {
        pairs := SweepPairs(pairs, now);
        if |pairs| >= MAX_TRACKED_KEYS {
          pairs := map[];
        }
      }
      assert pairs == PairsRoom(old(pairs), key, now);
      ghost var room := pairs;
      var entry := if key in pairs then pairs[key] else PairEntry(0, 0, None, now);
      assert entry == PairOf(room, key, now);
      entry := entry.(lastSeen := now);
      locked := entry.lockedUntil.Some? && entry.lockedUntil.value > now;
      if !locked {
        entry := CountConsecutive(entry, now);
      }
      PairFits(old(pairs), key, now, entry);
      pairs := pairs[key := entry];
    }

    /** The address half of a recorded failure. */
    method CountAddress(ip: Ip, now: Instant)
      requires Valid()
      modifies this`sprays
      ensures Valid() && sprays == RecordSpray(old(sprays), ip, now)
    {
      if ip !in sprays && |sprays| >= MAX_TRACKED_KEYS {
        sprays := SweepSprays(sprays, now);
        if |sprays| >= MAX_TRACKED_KEYS {
          sprays := map[];
        }
      }
      assert sprays == SpraysRoom(old(sprays), ip, now);
      ghost var room := sprays;
      var entry := if ip in sprays then sprays[ip] else SprayEntry([], None);
      assert entry == SprayOf(room, ip);
      entry := CountInWindow(entry, now);
      SprayFits(old(sprays), ip, now, entry);
      sprays := sprays[ip := entry];
    }

    method RecordSuccess(ip: Ip, username: string)
      requires Valid()
      modifies this`pairs
      ensures Valid() && Contents() == ForgetPair(old(Contents()), ip, username)
    {
      var key := (ip, Text.Lowercase(username));
      ghost var before := pairs;
      pairs := pairs - {key};
      SubsetSize(pairs.Keys, before.Keys);
      assert |pairs| == |pairs.Keys| && |before| == |before.Keys|;
    }
  }

  lemma PairRoomIsMade(pairs: Pairs, key: Key, now: Instant)
    requires |pairs| <= MAX_TRACKED_KEYS
    ensures |PairsRoom(pairs, key, now).Keys + {key}| <= MAX_TRACKED_KEYS
  {
    var room := PairsRoom(pairs, key, now);
    assert |room| == |room.Keys| && |pairs| == |pairs.Keys|;
    if key in room {
      assert room.Keys + {key} == room.Keys;
      SubsetSize(room.Keys, pairs.Keys);
    }
  }

  lemma SprayRoomIsMade(sprays: Sprays, ip: Ip, now: Instant)
    requires |sprays| <= MAX_TRACKED_KEYS
    ensures |SpraysRoom(sprays, ip, now).Keys + {ip}| <= MAX_TRACKED_KEYS
  {
    var room := SpraysRoom(sprays, ip, now);
    assert |room| == |room.Keys| && |sprays| == |sprays.Keys|;
    if ip in room {
      assert room.Keys + {ip} == room.Keys;
      SubsetSize(room.Keys, sprays.Keys);
    }
  }

  lemma PairFits(pairs: Pairs, key: Key, now: Instant, entry: PairEntry)
    requires |pairs| <= MAX_TRACKED_KEYS
    ensures |PairsRoom(pairs, key, now)[key := entry]| <= MAX_TRACKED_KEYS
  {
    PairRoomIsMade(pairs, key, now);
    var after := PairsRoom(pairs, key, now)[key := entry];
    assert after.Keys == PairsRoom(pairs, key, now).Keys + {key} && |after| == |after.Keys|;
  }

  lemma SprayFits(sprays: Sprays, ip: Ip, now: Instant, entry: SprayEntry)
    requires |sprays| <= MAX_TRACKED_KEYS
    ensures |SpraysRoom(sprays, ip, now)[ip := entry]| <= MAX_TRACKED_KEYS
  {
    SprayRoomIsMade(sprays, ip, now);
    var after := SpraysRoom(sprays, ip, now)[ip := entry];
    assert after.Keys == SpraysRoom(sprays, ip, now).Keys + {ip} && |after| == |after.Keys|;
  }

  /** Where the check allows an attempt, its failure counts in both maps. */
  lemma AllowedFailuresCount(s: State, ip: Ip, username: string, now: Instant)
    requires Check(s, ip, username, now).Allowed?
    ensures var key := KeyOf(ip, username);
            && !IsLocked(PairOf(s.pairs, key, now).lockedUntil, now)
            && !IsLocked(SprayOf(s.sprays, ip).lockedUntil, now)
            && RecordFailure(s, ip, username, now)
               == State(RecordPair(s.pairs, key, now), RecordSpray(s.sprays, ip, now))
  {
  }
}
