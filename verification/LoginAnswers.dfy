/** What an answer of the login throttle is worth to its caller. */
module LoginAnswers {
  import opened Common
  import Text
  import LoginLockouts
  import opened LoginThrottle
  import opened LoginRuns

  // ---------------------------------------------------------------------
  // What an answer of the check is worth
  // ---------------------------------------------------------------------

  /** The same letters, up to their ASCII case. */
  predicate SameLetter(c: char, d: char) {
    || c == d
    || ('A' <= c <= 'Z' && d as int == c as int + 32)
    || ('A' <= d <= 'Z' && c as int == d as int + 32)
  }

  predicate SameName(a: string, b: string) {
    |a| == |b| && forall i :: 0 <= i < |a| ==> SameLetter(a[i], b[i])
  }

  /** Two logins are of the same pair exactly if they come from one address for the same name, up to case. */
  lemma KeysFoldCase(ip: Ip, a: string, other: Ip, b: string)
    ensures KeyOf(ip, a) == KeyOf(other, b) <==> ip == other && SameName(a, b)
  {
    if SameName(a, b) {
      forall i | 0 <= i < |a| ensures Text.Lowercase(b)[i] == Text.ToLower(a[i]) {
        Text.LowercaseAt(b, i);
        assert SameLetter(a[i], b[i]);
      }
      Text.LowercaseIs(a, Text.Lowercase(b));
    } else if Text.Lowercase(a) == Text.Lowercase(b) {
      forall i | 0 <= i < |a| ensures SameLetter(a[i], b[i]) {
        Text.LowercaseAt(a, i);
        Text.LowercaseAt(b, i);
      }
    }
  }

  /** The spelling of a username never matters to any operation. */
  lemma UsernamesFoldCase(s: State, ip: Ip, a: string, b: string, now: Instant)
    requires SameName(a, b)
    ensures Check(s, ip, a, now) == Check(s, ip, b, now)
    ensures RecordFailure(s, ip, a, now) == RecordFailure(s, ip, b, now)
    ensures ForgetPair(s, ip, a) == ForgetPair(s, ip, b)
  {
    KeysFoldCase(ip, a, ip, b);
  }

  /** Other names, and other addresses, keep their entries in a success and, unless forgotten, in a failure. */
  lemma OtherNamesStandApart(s: State, ip: Ip, a: string, other: Ip, b: string, now: Instant)
    requires ip != other || !SameName(a, b)
    requires KeyOf(ip, a) in s.pairs
    ensures KeyOf(ip, a) in ForgetPair(s, other, b).pairs
    ensures ForgetPair(s, other, b).pairs[KeyOf(ip, a)] == s.pairs[KeyOf(ip, a)]
    ensures var after := RecordFailure(s, other, b, now).pairs;
            if LoginLockouts.Forgets(s.pairs, KeyOf(other, b), KeyOf(ip, a), now) then KeyOf(ip, a) !in after
            else KeyOf(ip, a) in after && after[KeyOf(ip, a)] == s.pairs[KeyOf(ip, a)]
  {
    KeysFoldCase(ip, a, other, b);
    LoginLockouts.FailureForgetsExactly(s.pairs, KeyOf(other, b), KeyOf(ip, a), now);
  }

  /** The lock that turns an attempt away: the address's if it is locked, else the pair's. */
  function LockOf(s: State, ip: Ip, username: string, now: Instant): Option<Instant> {
    if IsLocked(SprayOf(s.sprays, ip).lockedUntil, now) then SprayOf(s.sprays, ip).lockedUntil
    else if KeyOf(ip, username) in s.pairs then s.pairs[KeyOf(ip, username)].lockedUntil else None
  }

  /**
   An attempt is turned away exactly while a lock runs, with the whole seconds
   left of it, at least one; otherwise five attempts less the counted failures
   are left.
   */
  lemma CheckAnswers(s: State, ip: Ip, username: string, now: Instant)
    requires FailuresInRange(s.pairs)
    ensures match Check(s, ip, username, now)
            case Rejected(h) =>
              && LockOf(s, ip, username, now).Some?
              && var left := LockOf(s, ip, username, now).value - now;
                 0.0 < left < h as real + 1.0 && (h == 1 || h as real <= left) && 1 <= h
            case Allowed(n) =>
              && !IsLocked(LockOf(s, ip, username, now), now)
              && n + PairOf(s.pairs, KeyOf(ip, username), now).failures == 5
  {
  }

  lemma SameSize<K, V>(m: map<K, V>, keys: set<K>)
    requires m.Keys == keys
    ensures |m| == |keys|
  {
  }

  /** A sweep keeps exactly the pairs that are locked, or were seen in the last fifteen minutes. */
  lemma PairsSwept(pairs: Pairs, now: Instant)
    ensures var kept := set k | k in pairs && (IsLocked(pairs[k].lockedUntil, now) || now < pairs[k].lastSeen + 900.0);
            && SweepPairs(pairs, now).Keys == kept
            && (forall k :: k in kept ==> SweepPairs(pairs, now)[k] == pairs[k])
            && (forall key :: ResetsPairs(pairs, key, now) <==> key !in pairs && 10_000 <= |pairs| && 10_000 <= |kept|)
  {
    var kept := set k | k in pairs && (IsLocked(pairs[k].lockedUntil, now) || now < pairs[k].lastSeen + 900.0);
    SameSize(SweepPairs(pairs, now), kept);
  }

  /** The newest failure an entry remembers. */
  predicate FailedSince(e: SprayEntry, t: Instant) {
    e.recent != [] && t < e.recent[|e.recent| - 1]
  }

  /** And exactly the addresses that are locked, or failed in the last five minutes. */
  lemma SpraysSwept(sprays: Sprays, now: Instant)
    ensures var kept := set ip | ip in sprays
                              && (IsLocked(sprays[ip].lockedUntil, now) || FailedSince(sprays[ip], now - 300.0));
            && SweepSprays(sprays, now).Keys == kept
            && (forall ip :: ip in kept ==> SweepSprays(sprays, now)[ip] == sprays[ip])
            && (forall ip :: ResetsSprays(sprays, ip, now) <==> ip !in sprays && 10_000 <= |sprays| && 10_000 <= |kept|)
  {
    var kept := set ip | ip in sprays
                      && (IsLocked(sprays[ip].lockedUntil, now) || FailedSince(sprays[ip], now - 300.0));
    SameSize(SweepSprays(sprays, now), kept);
  }

  /**
   The number of attempts an allowing check announces is exact: each failure
   takes one, the last one locks the pair for its next lockout, and only the
   lock of the address can cut the count short.
   */
  lemma RemainingCountsDown(s: State, ip: Ip, username: string, now: Instant, n: nat, after: State)
    requires Check(s, ip, username, now) == Allowed(n) && FailuresInRange(s.pairs)
    requires after == RecordFailure(s, ip, username, now)
    ensures 1 <= n <= 5
    ensures Check(after, ip, username, now) ==
            if IsLocked(SprayOf(after.sprays, ip).lockedUntil, now) then Rejected(300)
            else if n == 1 then Rejected(LockoutFor(PairOf(s.pairs, KeyOf(ip, username), now).lockouts + 1))
            else Allowed(n - 1)
  {
    var key := KeyOf(ip, username);
    AllowedFailuresCount(s, ip, username, now);
    CountedPair(s.pairs, key, now);
    SprayLocksForTheWindow(s.sprays, ip, now);
    WholeSecondsLeft(now, LockoutFor(PairOf(s.pairs, key, now).lockouts + 1));
    WholeSecondsLeft(now, SPRAY_LOCKOUT.Floor);
  }

  lemma CountedPair(pairs: Pairs, key: Key, now: Instant)
    requires !IsLocked(PairOf(pairs, key, now).lockedUntil, now)
    ensures key in RecordPair(pairs, key, now)
    ensures RecordPair(pairs, key, now)[key] == CountFailure(PairOf(pairs, key, now), now)
  {
  }

  lemma SprayLocksForTheWindow(sprays: Sprays, ip: Ip, now: Instant)
    requires !IsLocked(SprayOf(sprays, ip).lockedUntil, now)
    ensures ip in RecordSpray(sprays, ip, now)
    ensures var e := RecordSpray(sprays, ip, now)[ip];
            IsLocked(e.lockedUntil, now) ==> e.lockedUntil == Some(now + SPRAY_LOCKOUT)
  {
  }

  lemma WholeSecondsLeft(now: Instant, secs: nat)
    requires 1 <= secs
    ensures SecondsUntil(now + secs as real, now) == secs
  {
    assert now + secs as real - now == secs as real;
  }

  /** A success gives the pair all its attempts back, and leaves the lock of the address alone. */
  lemma SuccessForgivesThePair(s: State, ip: Ip, username: string, now: Instant)
    ensures Check(ForgetPair(s, ip, username), ip, username, now) ==
            if IsLocked(SprayOf(s.sprays, ip).lockedUntil, now) then Check(s, ip, username, now)
            else Allowed(5)
  {
  }

  /**
   Unless a map is reset, a failure recorded for another pair unlocks nobody,
   sweeping included: who is locked out stays locked out until the lock ends.
   */
  lemma OthersUnlockNobody(s: State, other: Ip, someone: string, now: Instant,
                           ip: Ip, username: string, later: Instant)
    requires KeyOf(other, someone) != KeyOf(ip, username) && now <= later
    requires !ResetsPairs(s.pairs, KeyOf(other, someone), now) && !ResetsSprays(s.sprays, other, now)
    requires Check(s, ip, username, later).Rejected?
    ensures var after := RecordFailure(s, other, someone, now);
            Check(after, ip, username, later).Rejected?
            && (other != ip ==> Check(after, ip, username, later) == Check(s, ip, username, later))
  {
    var key, otherKey := KeyOf(ip, username), KeyOf(other, someone);
    PairLocksSurvive(s.pairs, otherKey, key, now, later);
    SprayLocksSurvive(s.sprays, other, ip, now, later);
  }

  lemma PairLocksSurvive(pairs: Pairs, other: Key, key: Key, now: Instant, later: Instant)
    requires other != key && now <= later && !ResetsPairs(pairs, other, now)
    ensures PairIsLocked(pairs, key, later) ==>
              key in RecordPair(pairs, other, now) && RecordPair(pairs, other, now)[key] == pairs[key]
  {
  }

  lemma SprayLocksSurvive(sprays: Sprays, other: Ip, ip: Ip, now: Instant, later: Instant)
    requires now <= later && !ResetsSprays(sprays, other, now)
    ensures IsLocked(SprayOf(sprays, ip).lockedUntil, later) ==>
              SprayOf(RecordSpray(sprays, other, now), ip) == SprayOf(sprays, ip)
    ensures other != ip ==>
              (IsLocked(SprayOf(RecordSpray(sprays, other, now), ip).lockedUntil, later)
               <==> IsLocked(SprayOf(sprays, ip).lockedUntil, later))
  {
  }

  // ---------------------------------------------------------------------
  // What the Retry-After hint is worth
  // ---------------------------------------------------------------------

  /**
   The hint of a rejected login is whole seconds rounded down: waiting for it
   outlasts the lock exactly when the lock had no more than one second or a
   whole number of seconds left.
   */
  lemma HintOutlastsLock(until: Instant, now: Instant)
    requires IsLocked(Some(until), now)
    ensures !IsLocked(Some(until), now + SecondsUntil(until, now) as real)
       <==> (until - now <= 1.0 || (until - now).Floor as real == until - now)
  {
  }

  /** Half a second over one second: the hint says one, and the lock is still there. */
  lemma HintMayBeShort()
    ensures IsLocked(Some(1.5), 0.0) && IsLocked(Some(1.5), 0.0 + SecondsUntil(1.5, 0.0) as real)
  {
  }
}
