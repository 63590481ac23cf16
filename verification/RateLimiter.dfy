/**
 The per-address token buckets of src/rate_limit.rs. Token amounts and
 instants are real numbers; the mutex makes calls sequential.
 */
module RateLimiter {
  import opened Common

  /** Client addresses are opaque keys. */
  type Ip = nat
  type Instant = real

  const MAX_TRACKED_IPS := 10_000
  const U64_MAX := 0xFFFF_FFFF_FFFF_FFFF

  datatype Decision = Allowed(remaining: real) | Rejected(retryAfterSecs: nat)

  datatype Bucket = Bucket(tokens: real, lastRefill: Instant)

  type Buckets = map<Ip, Bucket>

  /** The limits a limiter is built with; the configuration only accepts positive refill rates. */
  datatype Limits = Limits(capacity: real, refill: real)
  {
    predicate Valid() {
      0.0 <= capacity && 0.0 < refill
    }
  }

  /** A call, with the reading of the clock that a sweep inside it would take. */
  datatype Call = Call(ip: Ip, now: Instant, sweepClock: Instant)

  // ---------------------------------------------------------------------
  // The operations
  // ---------------------------------------------------------------------

  function Elapsed(now: Instant, since: Instant): real {
    if since < now then now - since else 0.0
  }

  function Min(a: real, b: real): real {
    if a <= b then a else b
  }

  function Ceiling(x: real): int {
    -((-x).Floor)
  }

  /** The tokens that come back between two instants. */
  function Gain(from: Instant, to: Instant, l: Limits): real {
    Refilled(to - from, l)
  }

  function Refilled(seconds: real, l: Limits): real {
    seconds * l.refill
  }

  /** What a bucket holds at an instant, refilled for the time since it was last touched. */
  function Level(b: Bucket, now: Instant, l: Limits): real {
    Min(b.tokens + Refilled(Elapsed(now, b.lastRefill), l), l.capacity)
  }

  function RetryAfter(level: real, l: Limits): nat
    requires l.Valid()
  {
    var secs := Ceiling((1.0 - level) / l.refill);
    if secs < 1 then 1 else if secs > U64_MAX then U64_MAX else secs
  }

  function TryAcquire(b: Bucket, now: Instant, l: Limits): (Bucket, Decision)
    requires l.Valid()
  {
    var level := Level(b, now, l);
    if level >= 1.0 then (Bucket(level - 1.0, now), Allowed(level - 1.0))
    else (Bucket(level, now), Rejected(RetryAfter(level, l)))
  }

  /** A bucket that would be full by the given instant is not worth keeping. */
  predicate IsStale(b: Bucket, clock: Instant, l: Limits) {
    b.tokens + Refilled(Elapsed(clock, b.lastRefill), l) >= l.capacity
  }

  function SweepStale(bs: Buckets, clock: Instant, l: Limits): (swept: Buckets)
    ensures swept.Keys <= bs.Keys && |swept| <= |bs|
  {
    var swept := map ip | ip in bs && !IsStale(bs[ip], clock, l) :: bs[ip];
    KeysBound(swept, bs);
    swept
  }

  lemma KeysBound(a: Buckets, b: Buckets)
    requires a.Keys <= b.Keys
    ensures |a| <= |b|
  {
    SubsetSize(a.Keys, b.Keys);
    assert |a| == |a.Keys| && |b| == |b.Keys|;
  }

  /** The call finds the map full of other, still active addresses and clears it. */
  predicate Resets(bs: Buckets, c: Call, l: Limits) {
    c.ip !in bs && |bs| >= MAX_TRACKED_IPS && |SweepStale(bs, c.sweepClock, l)| >= MAX_TRACKED_IPS
  }

  function MakeRoom(bs: Buckets, c: Call, l: Limits): Buckets {
    if c.ip !in bs && |bs| >= MAX_TRACKED_IPS then
      if Resets(bs, c, l) then map[] else SweepStale(bs, c.sweepClock, l)
    else bs
  }

  function BucketOf(bs: Buckets, ip: Ip, now: Instant, l: Limits): Bucket {
    if ip in bs then bs[ip] else Bucket(l.capacity, now)
  }

  /** One call on a map that is bounded and swept. */
  function Acquire(bs: Buckets, c: Call, l: Limits): (Buckets, Decision)
    requires l.Valid()
  {
    AcquireUnbounded(MakeRoom(bs, c, l), c, l)
  }

  /** One call on a map that keeps every address forever. */
  function AcquireUnbounded(bs: Buckets, c: Call, l: Limits): (Buckets, Decision)
    requires l.Valid()
  {
    var (b, d) := TryAcquire(BucketOf(bs, c.ip, c.now, l), c.now, l);
    (bs[c.ip := b], d)
  }

  predicate TokensInRange(bs: Buckets, l: Limits) {
    forall ip :: ip in bs ==> 0.0 <= bs[ip].tokens <= l.capacity
  }

  /** Refills a bucket for the elapsed time and takes one token. */
  method TakeToken(bucket: Bucket, now: Instant, l: Limits) returns (after: Bucket, d: Decision)
    requires l.Valid()
    ensures (after, d) == TryAcquire(bucket, now, l)
  {
    var elapsed := Elapsed(now, bucket.lastRefill);
    after := bucket.(tokens := Min(bucket.tokens + Refilled(elapsed, l), l.capacity));
    after := after.(lastRefill := now);
    if after.tokens >= 1.0 {
      after := after.(tokens := after.tokens - 1.0);
      d := Allowed(after.tokens);
    } else {
      d := Rejected(RetryAfter(after.tokens, l));
    }
  }

  class RateLimiter {
    const limits: Limits
    var buckets: Buckets

    ghost predicate Valid()
      reads this
    {
      limits.Valid() && |buckets| <= MAX_TRACKED_IPS && TokensInRange(buckets, limits)
    }

    constructor (capacity: nat, refillPerSecond: real)
      requires 0.0 < refillPerSecond
      ensures Valid() && buckets == map[] && limits == Limits(capacity as real, refillPerSecond)
    {
      limits := Limits(capacity as real, refillPerSecond);
      buckets := map[];
    }

    method TryAcquireAt(ip: Ip, now: Instant, sweepClock: Instant) returns (d: Decision)
      requires Valid()
      modifies this
      ensures Valid()
      ensures (buckets, d) == Acquire(old(buckets), Call(ip, now, sweepClock), limits)
    {
      ghost var c := Call(ip, now, sweepClock);
      if ip !in buckets && |buckets| >= MAX_TRACKED_IPS {
        buckets := SweepStale(buckets, sweepClock, limits);
        if |buckets| >= MAX_TRACKED_IPS {
          buckets := map[];
        }
      }
      assert buckets == MakeRoom(old(buckets), c, limits);
      ghost var room := buckets;
      if ip !in buckets {
        buckets := buckets[ip := Bucket(limits.capacity, now)];
      }
      assert buckets[ip] == BucketOf(room, ip, now, limits);
      var bucket;
      bucket, d := TakeToken(buckets[ip], now, limits);
      buckets := buckets[ip := bucket];
      assert buckets == room[ip := bucket];
      AcquireKeepsRange(old(buckets), c, limits);
    }

    method TrackedIps() returns (n: nat)
      requires Valid()
      ensures n == |buckets| && n <= 10_000
    {
      n := |buckets|;
    }
  }

  // ---------------------------------------------------------------------
  // One call
  // ---------------------------------------------------------------------

  lemma RoomIsMade(bs: Buckets, c: Call, l: Limits)
    requires |bs| <= MAX_TRACKED_IPS
    ensures |MakeRoom(bs, c, l)[c.ip := Bucket(0.0, 0.0)]| <= MAX_TRACKED_IPS
  {
    var room := MakeRoom(bs, c, l);
    assert room[c.ip := Bucket(0.0, 0.0)].Keys == room.Keys + {c.ip};
  }

  lemma RefillNotNegative(x: real, l: Limits)
    requires l.Valid() && 0.0 <= x
    ensures 0.0 <= Refilled(x, l)
  {
  }

  lemma RefillAdds(x: real, y: real, l: Limits)
    ensures Refilled(x + y, l) == Refilled(x, l) + Refilled(y, l)
  {
  }

  lemma RefillOrder(x: real, y: real, l: Limits)
    requires l.Valid()
    ensures x <= y <==> Refilled(x, l) <= Refilled(y, l)
  {
    RefillAdds(x, y - x, l);
    RefillAdds(y, x - y, l);
    PositiveProduct(y - x, l.refill);
    PositiveProduct(x - y, l.refill);
  }

  lemma PositiveProduct(x: real, y: real)
    requires 0.0 < y
    ensures 0.0 < x ==> 0.0 < x * y
    ensures 0.0 <= x ==> 0.0 <= x * y
  {
  }

  lemma RefillPaysFor(tokens: real, l: Limits)
    requires l.Valid()
    ensures Refilled(tokens / l.refill, l) == tokens
  {
  }

  lemma LevelInRange(b: Bucket, now: Instant, l: Limits)
    requires l.Valid() && 0.0 <= b.tokens <= l.capacity
    ensures 0.0 <= Level(b, now, l) <= l.capacity && b.tokens <= Level(b, now, l)
    ensures now <= b.lastRefill ==> Level(b, now, l) == b.tokens
  {
    RefillNotNegative(Elapsed(now, b.lastRefill), l);
  }

  /** The addresses whose buckets would not be full by the given instant. */
  function Active(bs: Buckets, clock: Instant, l: Limits): set<Ip> {
    set ip | ip in bs && Level(bs[ip], clock, l) < l.capacity
  }

  /** A sweep keeps exactly those, as they are. */
  lemma SweepDropsTheFull(bs: Buckets, clock: Instant, l: Limits)
    ensures SweepStale(bs, clock, l).Keys == Active(bs, clock, l)
    ensures forall ip :: ip in SweepStale(bs, clock, l) ==> SweepStale(bs, clock, l)[ip] == bs[ip]
    ensures |SweepStale(bs, clock, l)| == |Active(bs, clock, l)|
  {
    var swept := SweepStale(bs, clock, l);
    assert swept.Keys == Active(bs, clock, l) && |swept| == |swept.Keys|;
  }

  /**
   What a call does to the other buckets: nothing, unless its address is new to
   a full map; then those that are full go, and all of them if that leaves ten
   thousand.
   */
  lemma RoomForACall(bs: Buckets, c: Call, l: Limits)
    ensures var kept := Active(bs, c.sweepClock, l);
            MakeRoom(bs, c, l).Keys == if c.ip in bs || |bs| < 10_000 then bs.Keys
                                       else if |kept| < 10_000 then kept else {}
    ensures forall ip :: ip in MakeRoom(bs, c, l) ==> ip in bs && MakeRoom(bs, c, l)[ip] == bs[ip]
  {
    SweepDropsTheFull(bs, c.sweepClock, l);
  }

  /** The caller's own bucket, a full one if it is new, pays for the call; every bucket there was room for stays. */
  lemma CallTakesItsToken(bs: Buckets, c: Call, l: Limits)
    requires l.Valid()
    ensures var (after, d) := Acquire(bs, c, l);
            && after.Keys == MakeRoom(bs, c, l).Keys + {c.ip}
            && (forall ip :: ip in after && ip != c.ip ==> ip in bs && after[ip] == bs[ip])
            && (after[c.ip], d) == TryAcquire(if c.ip in bs then bs[c.ip] else Bucket(l.capacity, c.now), c.now, l)
  {
    RoomForACall(bs, c, l);
  }

  /** Tokens always stay between nothing and the capacity, and the map within its bound. */
  lemma AcquireKeepsRange(bs: Buckets, c: Call, l: Limits)
    requires l.Valid() && TokensInRange(bs, l) && |bs| <= 10_000
    ensures var (after, d) := Acquire(bs, c, l);
            TokensInRange(after, l) && |after| <= 10_000
  {
    var room := MakeRoom(bs, c, l);
    RoomIsMade(bs, c, l);
    LevelInRange(BucketOf(room, c.ip, c.now, l), c.now, l);
    var after := Acquire(bs, c, l).0;
    assert after.Keys == room[c.ip := Bucket(0.0, 0.0)].Keys;
    assert |after| == |after.Keys| && |room[c.ip := Bucket(0.0, 0.0)]| == |after.Keys|;
  }

  /**
   A rejected client that comes back after the hinted number of seconds is
   served, as long as the bucket can hold a token and the hint fits its type;
   it is served exactly from the instant its missing part of a token is back.
   */
  lemma RetryAfterSuffices(b: Bucket, now: Instant, later: Instant, l: Limits)
    requires l.Valid() && 1.0 <= l.capacity && now <= later
    requires TryAcquire(b, now, l).1.Rejected?
    ensures var (after, d) := TryAcquire(b, now, l);
            && (TryAcquire(after, later, l).1.Allowed? <==> now + (1.0 - after.tokens) / l.refill <= later)
            && (d.retryAfterSecs < 0xFFFF_FFFF_FFFF_FFFF && now + d.retryAfterSecs as real <= later
                ==> TryAcquire(after, later, l).1.Allowed?)
  {
    var (after, d) := TryAcquire(b, now, l);
    var missing := 1.0 - after.tokens;
    var wait := missing / l.refill;
    RefillPaysFor(missing, l);
    RefillOrder(wait, later - now, l);
    assert Level(after, later, l) >= 1.0 <==> Refilled(wait, l) <= Refilled(later - now, l);
    CeilingIsEnough(wait);
  }

  /**
   The hint is the least whole number of seconds, from one on, after which the
   client is served: one second less is too early, and a second is hinted
   whenever it is enough.
   */
  lemma HintIsLeast(b: Bucket, now: Instant, l: Limits)
    requires l.Valid() && 1.0 <= l.capacity && TryAcquire(b, now, l).1.Rejected?
    ensures var (after, d) := TryAcquire(b, now, l);
            && 1 <= d.retryAfterSecs
            && (1 < d.retryAfterSecs ==> TryAcquire(after, now + (d.retryAfterSecs - 1) as real, l).1.Rejected?)
            && (TryAcquire(after, now + 1.0, l).1.Allowed? ==> d.retryAfterSecs == 1)
  {
    var (after, d) := TryAcquire(b, now, l);
    var wait := (1.0 - after.tokens) / l.refill;
    RetryAfterSuffices(b, now, now + 1.0, l);
    RetryAfterSuffices(b, now, now + (d.retryAfterSecs - 1) as real, l);
    CeilingIsLeast(wait);
  }

  lemma CeilingIsLeast(x: real)
    ensures (Ceiling(x) - 1) as real < x
  {
  }

  lemma CeilingIsEnough(x: real)
    ensures x <= Ceiling(x) as real
  {
  }

  /** `n` calls at one instant are all allowed. */
  predicate AllowsBurst(b: Bucket, now: Instant, n: nat, l: Limits)
    requires l.Valid()
    decreases n
  {
    n == 0 || (TryAcquire(b, now, l).1.Allowed? && AllowsBurst(TryAcquire(b, now, l).0, now, n - 1, l))
  }

  /**
   A burst is served exactly up to the level of the bucket, and what an
   allowed call announces as remaining is what a further burst can draw.
   */
  lemma {:induction false} BurstDrawsTheLevel(b: Bucket, now: Instant, n: nat, l: Limits)
    requires l.Valid() && 0.0 <= b.tokens <= l.capacity
    ensures AllowsBurst(b, now, n, l) <==> n as real <= Level(b, now, l)
    ensures var (after, d) := TryAcquire(b, now, l);
            d.Allowed? ==> (AllowsBurst(after, now, n, l) <==> n as real <= d.remaining)
    decreases n
  {
    var after := TryAcquire(b, now, l).0;
    LevelInRange(b, now, l);
    LevelAtOnce(after, l);
    if n > 0 {
      BurstDrawsTheLevel(after, now, n - 1, l);
      var again := TryAcquire(after, now, l).0;
      LevelAtOnce(again, l);
      LevelInRange(after, now, l);
      BurstDrawsTheLevel(again, now, n - 1, l);
    }
  }

  lemma LevelAtOnce(b: Bucket, l: Limits)
    requires l.Valid() && 0.0 <= b.tokens <= l.capacity
    ensures Level(b, b.lastRefill, l) == b.tokens
  {
  }

  // ---------------------------------------------------------------------
  // Runs
  // ---------------------------------------------------------------------

  /** Instants do not decrease, and a sweep's reading is no later than any later call. */
  predicate Timely(calls: seq<Call>, start: Instant) {
    calls == [] || (start <= calls[0].now && Timely(calls[1..], After(calls[0])))
  }

  function After(c: Call): Instant {
    if c.now <= c.sweepClock then c.sweepClock else c.now
  }

  function Decisions(bs: Buckets, calls: seq<Call>, l: Limits): seq<Decision>
    requires l.Valid()
    decreases |calls|
  {
    if calls == [] then []
    else
      var (after, d) := Acquire(bs, calls[0], l);
      [d] + Decisions(after, calls[1..], l)
  }

  function UnboundedDecisions(bs: Buckets, calls: seq<Call>, l: Limits): (ds: seq<Decision>)
    requires l.Valid()
    ensures |ds| == |calls|
    decreases |calls|
  {
    if calls == [] then []
    else
      var (after, d) := AcquireUnbounded(bs, calls[0], l);
      [d] + UnboundedDecisions(after, calls[1..], l)
  }

  predicate NeverResets(bs: Buckets, calls: seq<Call>, l: Limits)
    requires l.Valid()
    decreases |calls|
  {
    calls == []
    || (!Resets(bs, calls[0], l) && NeverResets(Acquire(bs, calls[0], l).0, calls[1..], l))
  }

  function StateAfter(bs: Buckets, calls: seq<Call>, l: Limits): Buckets
    requires l.Valid()
    decreases |calls|
  {
    if calls == [] then bs else StateAfter(Acquire(bs, calls[0], l).0, calls[1..], l)
  }

  /** Over every run, resets or not, the map stays within its bound and tokens within range. */
  lemma {:induction false} RunsStayBounded(bs: Buckets, calls: seq<Call>, l: Limits)
    requires l.Valid() && TokensInRange(bs, l) && |bs| <= 10_000
    ensures var after := StateAfter(bs, calls, l);
            TokensInRange(after, l) && |after| <= 10_000
    decreases |calls|
  {
    if calls != [] {
      AcquireKeepsRange(bs, calls[0], l);
      RunsStayBounded(Acquire(bs, calls[0], l).0, calls[1..], l);
    }
  }

  // ---------------------------------------------------------------------
  // Sweeping does not change any answer
  // ---------------------------------------------------------------------

  /** The bounded map holds the unbounded one's buckets, except some that are full by `t`. */
  predicate Simulates(bs: Buckets, us: Buckets, t: Instant, l: Limits) {
    && (forall ip :: ip in bs ==> ip in us && bs[ip] == us[ip])
    && (forall ip :: ip in us && ip !in bs ==> IsStale(us[ip], t, l))
  }

  lemma StaleStaysStale(b: Bucket, t: Instant, later: Instant, l: Limits)
    requires l.Valid() && IsStale(b, t, l) && t <= later
    ensures IsStale(b, later, l) && Level(b, later, l) == l.capacity
  {
    assert Elapsed(t, b.lastRefill) <= Elapsed(later, b.lastRefill);
    RefillOrder(Elapsed(t, b.lastRefill), Elapsed(later, b.lastRefill), l);
  }

  lemma SweepSimulates(bs: Buckets, us: Buckets, t: Instant, clock: Instant, later: Instant, l: Limits)
    requires l.Valid() && Simulates(bs, us, t, l) && t <= later && clock <= later
    ensures Simulates(SweepStale(bs, clock, l), us, later, l)
  {
    forall ip | ip in us && ip !in SweepStale(bs, clock, l) ensures IsStale(us[ip], later, l) {
      if ip in bs {
        StaleStaysStale(us[ip], clock, later, l);
      } else {
        StaleStaysStale(us[ip], t, later, l);
      }
    }
  }

  lemma CallSimulates(bs: Buckets, us: Buckets, t: Instant, c: Call, l: Limits)
    requires l.Valid() && Simulates(bs, us, t, l) && t <= c.now && !Resets(bs, c, l)
    ensures var (bs', d) := Acquire(bs, c, l);
            var (us', d') := AcquireUnbounded(us, c, l);
            d == d' && Simulates(bs', us', After(c), l)
  {
    var room := MakeRoom(bs, c, l);
    SweepSimulates(bs, us, t, c.sweepClock, After(c), l);
    forall ip | ip in us && ip !in room ensures IsStale(us[ip], After(c), l) {
      if ip !in bs {
        StaleStaysStale(us[ip], t, After(c), l);
      }
    }
    if c.ip in us && c.ip !in room {
      assert c.ip !in bs;
      StaleStaysStale(us[c.ip], t, c.now, l);
    }
    assert Level(BucketOf(room, c.ip, c.now, l), c.now, l) == Level(BucketOf(us, c.ip, c.now, l), c.now, l);
  }

  /**
   Between resets, and with instants that do not decrease, the bounded, swept
   limiter decides every call as a limiter that never forgets an address.
   */
  lemma {:induction false} SweepingIsInvisible(bs: Buckets, us: Buckets, t: Instant, calls: seq<Call>, l: Limits)
    requires l.Valid() && Simulates(bs, us, t, l)
    requires Timely(calls, t) && NeverResets(bs, calls, l)
    ensures Decisions(bs, calls, l) == UnboundedDecisions(us, calls, l)
    decreases |calls|
  {
    if calls != [] {
      CallSimulates(bs, us, t, calls[0], l);
      SweepingIsInvisible(Acquire(bs, calls[0], l).0, AcquireUnbounded(us, calls[0], l).0,
                          After(calls[0]), calls[1..], l);
    }
  }

  /** A reset starts over: from that call on, the limiter answers like a new one. */
  lemma ResetStartsOver(bs: Buckets, calls: seq<Call>, l: Limits)
    requires l.Valid() && calls != [] && Resets(bs, calls[0], l)
    ensures Decisions(bs, calls, l) == Decisions(map[], calls, l)
  {
  }

  // ---------------------------------------------------------------------
  // How much one address gets
  // ---------------------------------------------------------------------

  /** The calls of `ip` at instants in `[s, e]` that were allowed. */
  function Admitted(calls: seq<Call>, ds: seq<Decision>, ip: Ip, s: Instant, e: Instant): nat
    requires |ds| == |calls|
  {
    if calls == [] then 0
    else
      (if calls[0].ip == ip && s <= calls[0].now <= e && ds[0].Allowed? then 1 else 0)
      + Admitted(calls[1..], ds[1..], ip, s, e)
  }

  /** What an address could still draw at once; an unknown address has a full bucket. */
  function Credit(us: Buckets, ip: Ip, t: Instant, l: Limits): real {
    if ip in us then Level(us[ip], t, l) else l.capacity
  }

  function Later(a: Instant, b: Instant): Instant {
    if a <= b then b else a
  }

  /** What an address can still draw until `e`, the refill on the way included. */
  function Allowance(us: Buckets, ip: Ip, t: Instant, s: Instant, e: Instant, l: Limits): real {
    var m := Later(s, t);
    if e < m then 0.0 else Credit(us, ip, m, l) + Gain(m, e, l)
  }

  lemma GainNotNegative(from: Instant, to: Instant, l: Limits)
    requires l.Valid() && from <= to
    ensures 0.0 <= Gain(from, to, l)
  {
    RefillNotNegative(to - from, l);
  }

  lemma GainAdds(a: Instant, b: Instant, c: Instant, l: Limits)
    ensures Gain(a, c, l) == Gain(a, b, l) + Gain(b, c, l)
  {
    RefillAdds(b - a, c - b, l);
    assert (b - a) + (c - b) == c - a;
  }

  lemma LevelGrows(b: Bucket, t: Instant, later: Instant, l: Limits)
    requires l.Valid() && t <= later
    ensures Level(b, later, l) <= Level(b, t, l) + Gain(t, later, l)
    ensures Level(b, t, l) <= Level(b, later, l)
  {
    var x, y := Elapsed(t, b.lastRefill), Elapsed(later, b.lastRefill);
    assert x <= y <= x + (later - t);
    RefillOrder(x, y, l);
    RefillOrder(y, x + (later - t), l);
    RefillAdds(x, later - t, l);
    GainNotNegative(t, later, l);
  }

  lemma CreditGrows(us: Buckets, ip: Ip, t: Instant, later: Instant, l: Limits)
    requires l.Valid() && t <= later && TokensInRange(us, l)
    ensures 0.0 <= Credit(us, ip, t, l) <= l.capacity
    ensures Credit(us, ip, later, l) <= Credit(us, ip, t, l) + Gain(t, later, l)
  {
    GainNotNegative(t, later, l);
    if ip in us {
      LevelGrows(us[ip], t, later, l);
      LevelInRange(us[ip], t, l);
    }
  }

  lemma AllowanceShrinks(us: Buckets, ip: Ip, t: Instant, later: Instant, s: Instant, e: Instant, l: Limits)
    requires l.Valid() && t <= later && TokensInRange(us, l)
    ensures 0.0 <= Allowance(us, ip, later, s, e, l) <= Allowance(us, ip, t, s, e, l)
  {
    var m, n := Later(s, t), Later(s, later);
    CreditGrows(us, ip, m, n, l);
    CreditGrows(us, ip, n, n, l);
    if n <= e {
      GainNotNegative(n, e, l);
      GainAdds(m, n, e, l);
    } else if m <= e {
      GainNotNegative(m, e, l);
    }
  }

  /** Every bucket was last touched by `t`. */
  predicate TouchedBy(us: Buckets, t: Instant) {
    forall ip :: ip in us ==> us[ip].lastRefill <= t
  }

  /** At every later instant a touched bucket holds no more than the untouched one would. */
  lemma LevelAfterwards(b: Bucket, after: Bucket, now: Instant, later: Instant, l: Limits)
    requires l.Valid() && b.lastRefill <= now <= later
    requires after.lastRefill == now && after.tokens <= Level(b, now, l)
    ensures Level(after, later, l) <= Level(b, later, l)
  {
    RefillAdds(Elapsed(now, b.lastRefill), later - now, l);
    assert Elapsed(later, b.lastRefill) == Elapsed(now, b.lastRefill) + (later - now);
  }

  /** A call pays for what it takes, out of the allowance of its address. */
  lemma CallPays(us: Buckets, c: Call, ip: Ip, s: Instant, e: Instant, l: Limits)
    requires l.Valid() && TokensInRange(us, l) && TouchedBy(us, c.now)
    ensures var (after, d) := AcquireUnbounded(us, c, l);
            && TokensInRange(after, l) && TouchedBy(after, c.now)
            && Allowance(after, ip, c.now, s, e, l)
               + (if c.ip == ip && s <= c.now <= e && d.Allowed? then 1.0 else 0.0)
               <= Allowance(us, ip, c.now, s, e, l)
  {
    var b := BucketOf(us, c.ip, c.now, l);
    var after := AcquireUnbounded(us, c, l).0;
    LevelInRange(b, c.now, l);
    var m := Later(s, c.now);
    if c.ip == ip {
      LevelAfterwards(b, after[ip], c.now, m, l);
    }
  }

  /** However the calls fall, an address draws no more than its allowance. */
  lemma {:induction false} AdmittedWithinAllowance(us: Buckets, t: Instant, calls: seq<Call>,
                                                   ip: Ip, s: Instant, e: Instant, l: Limits)
    requires l.Valid() && TokensInRange(us, l) && TouchedBy(us, t) && Timely(calls, t)
    ensures Admitted(calls, UnboundedDecisions(us, calls, l), ip, s, e) as real <= Allowance(us, ip, t, s, e, l)
    decreases |calls|
  {
    if calls == [] {
      AllowanceShrinks(us, ip, t, t, s, e, l);
    } else {
      var c := calls[0];
      var (after, d) := AcquireUnbounded(us, c, l);
      AllowanceShrinks(us, ip, t, c.now, s, e, l);
      CallPays(us, c, ip, s, e, l);
      AllowanceShrinks(after, ip, c.now, After(c), s, e, l);
      AdmittedWithinAllowance(after, After(c), calls[1..], ip, s, e, l);
      var ds := UnboundedDecisions(us, calls, l);
      assert ds[0] == d && ds[1..] == UnboundedDecisions(after, calls[1..], l);
    }
  }

  /**
   Between resets, the bounded limiter allows one address at most
   `capacity + refill * (e - s)` requests at instants in `[s, e]`.
   */
  lemma AdmissionBound(calls: seq<Call>, t: Instant, ip: Ip, s: Instant, e: Instant, l: Limits)
    requires l.Valid() && Timely(calls, t) && NeverResets(map[], calls, l) && s <= e
    ensures |Decisions(map[], calls, l)| == |calls|
    ensures Admitted(calls, Decisions(map[], calls, l), ip, s, e) as real <= l.capacity + Gain(s, e, l)
  {
    SweepingIsInvisible(map[], map[], t, calls, l);
    AdmittedWithinAllowance(map[], t, calls, ip, s, e, l);
    var m := Later(s, t);
    if m <= e {
      GainNotNegative(s, m, l);
      GainAdds(s, m, e, l);
    } else {
      GainNotNegative(s, e, l);
    }
  }
}
