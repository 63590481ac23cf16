/** Revoked families stay dead, and live families can be defended: what survives revocation and pruning. */
module TokenFamilies {
  import opened Common
  import opened RefreshTokens
  import opened TokenProtocol

  // ---------------------------------------------------------------------
  // Revocation
  // ---------------------------------------------------------------------

  /** A founded family with no redeemable token, and no successor still to come. */
  ghost predicate IsDead(s: State, family: Id) {
    && IsFounded(s, family)
    && (forall id :: !IsLive(s, id, family))
    && (forall id :: !IsGranted(s, id, family))
  }

  lemma TakingKeepsDead(s: State, s': State, family: Id)
    requires IsDead(s, family) && OnlyTakes(s, s')
    ensures IsDead(s', family)
  {
    forall id ensures !IsLive(s', id, family) && !IsGranted(s', id, family) {
      assert !IsLive(s, id, family) && !IsGranted(s, id, family);
    }
  }

  lemma RotateKeepsDead(s: State, id: Id, now: Time, family: Id)
    requires IsDead(s, family)
    ensures IsDead(RotateOne(s, id, now), family)
  {
    var s' := RotateOne(s, id, now);
    assert !IsLive(s, id, family);
    forall i ensures !IsLive(s', i, family) && !IsGranted(s', i, family) {
      assert !IsLive(s, i, family) && !IsGranted(s, i, family);
    }
  }

  lemma SaveKeepsDead(s: State, rotated: Id, token: NewToken, family: Id)
    requires IsDead(s, family) && rotated in s.grants
    ensures IsDead(SaveOne(s, rotated, token), family)
  {
    var s' := SaveOne(s, rotated, token);
    assert !IsGranted(s, rotated, family);
    forall i ensures !IsLive(s', i, family) && !IsGranted(s', i, family) {
      assert !IsLive(s, i, family) && !IsGranted(s, i, family);
    }
  }

  lemma RotateAndRevokeKeepsDead(s: State, id: Id, now: Time, family: Id)
    requires IsDead(s, family) && id in s.table.rows
    ensures IsDead(RotateAndRevoke(s, id, now), family)
  {
    var rotated := RotateOne(s, id, now);
    RotateKeepsDead(s, id, now, family);
    TakingKeepsDead(rotated, RotateAndRevoke(s, id, now), family);
  }

  lemma RefreshKeepsDead(s: State, hash: string, now: Time, token: NewToken, userExists: bool, family: Id)
    requires IsDead(s, family)
    ensures IsDead(HandleRefresh(s, hash, now, token, userExists), family)
  {
    var pruned, id := RefreshWays(s, hash, now, token, userExists);
    TakingKeepsDead(s, pruned, family);
    if HandleRefresh(s, hash, now, token, userExists) != pruned {
      if !CanRotate(pruned.table.rows, id) {
        TakingKeepsDead(pruned, HandleRefresh(s, hash, now, token, userExists), family);
      } else if userExists {
        RotateKeepsDead(pruned, id, now, family);
        SaveKeepsDead(RotateOne(pruned, id, now), id, token, family);
      } else {
        RotateAndRevokeKeepsDead(pruned, id, now, family);
      }
    }
  }

  lemma StepKeepsDead(s: State, a: Action, family: Id)
    requires Enabled(s, a) && IsDead(s, family) && WellNumbered(s)
    ensures IsDead(Step(s, a), family)
  {
    var s' := Step(s, a);
    match a
    case LoginInsert(user, token) =>
      forall i ensures !IsLive(s', i, family) && !IsGranted(s', i, family) {
        assert !IsLive(s, i, family) && !IsGranted(s, i, family);
      }
    case LoginSettle(id) =>
      forall i ensures !IsLive(s', i, family) && !IsGranted(s', i, family) {
        assert !IsLive(s, i, family) && !IsGranted(s, i, family);
      }
    case RotateRow(id, now) => RotateKeepsDead(s, id, now, family);
    case SaveSuccessor(rotated, token) => SaveKeepsDead(s, rotated, token, family);
    case RefreshAtOnce(hash, now, token, userExists) =>
      RefreshKeepsDead(s, hash, now, token, userExists, family);
    case _ => TakingKeepsDead(s, s', family);
  }

  lemma {:induction false} DeadStaysDead(s: State, actions: seq<Action>, family: Id)
    requires Safe(s) && CanRun(s, actions) && IsDead(s, family)
    ensures IsDead(Run(s, actions), family)
    decreases |actions|
  {
    if actions != [] {
      StepIsSafe(s, actions[0]);
      StepKeepsDead(s, actions[0], family);
      DeadStaysDead(Step(s, actions[0]), actions[1..], family);
    }
  }

  /** No later state, however the workers go on, holds a redeemable token of the family. */
  ghost predicate NeverLiveAgain(s: State, family: Id) {
    forall actions: seq<Action>, id: Id :: CanRun(s, actions) ==> !IsLive(Run(s, actions), id, family)
  }

  lemma {:induction false} LongestHash(rows: Rows, keys: set<Id>) returns (n: nat)
    requires keys <= rows.Keys
    ensures forall id :: id in keys ==> |rows[id].hash| <= n
    decreases keys
  {
    n := 0;
    if k :| k in keys {
      n := LongestHash(rows, keys - {k});
      if n < |rows[k].hash| {
        n := |rows[k].hash|;
      }
    }
  }

  lemma FreeHash(rows: Rows) returns (hash: string)
    ensures HashIsFree(rows, hash)
  {
    var n := LongestHash(rows, rows.Keys);
    hash := seq(n + 1, _ => 'x');
  }

  /** Revoking a family ends every token of it and none of any other. */
  lemma RevocationSparesOthers(s: State, family: Id, now: Time, id: Id, other: Id)
    ensures IsLive(Step(s, RevokeOneFamily(family, now)), id, other) <==> IsLive(s, id, other) && other != family
  {
  }

  /**
   Revoking a family ends it for good, in every later interleaving, exactly
   when no worker holds a grant to save a successor in it.
   */
  lemma RevocationIsFinal(s: State, family: Id, now: Time)
    requires Safe(s) && IsFounded(s, family)
    ensures NeverLiveAgain(Step(s, RevokeOneFamily(family, now)), family) <==> Grants(s, family) == {}
  {
    var revoked := Step(s, RevokeOneFamily(family, now));
    StepIsSafe(s, RevokeOneFamily(family, now));
    if Grants(s, family) == {} {
      forall id ensures !IsGranted(revoked, id, family) {
        assert id !in Grants(s, family);
      }
      assert IsDead(revoked, family);
      forall actions: seq<Action>, id: Id | CanRun(revoked, actions)
        ensures !IsLive(Run(revoked, actions), id, family)
      {
        DeadStaysDead(revoked, actions, family);
      }
    } else {
      var rotated :| rotated in Grants(s, family);
      var hash := FreeHash(revoked.table.rows);
      var save := SaveSuccessor(rotated, NewToken(hash, now));
      assert rotated in revoked.grants && Enabled(revoked, save);
      LastStep(revoked, save);
      assert IsLive(Run(revoked, [save]), revoked.table.nextId, family);
    }
  }

  /**
   A login, its rotation, a revocation of the family and only then the save of
   the successor: the revoked family has a redeemable token.
   */
  lemma LateSaveOutlivesRevocation()
    ensures var actions := [LoginInsert(7, NewToken("first", 100)), LoginSettle(1), RotateRow(1, 10),
                            RevokeOneFamily(1, 11), SaveSuccessor(1, NewToken("second", 200))];
            CanRun(START, actions) && IsLive(Run(START, actions), 2, 1)
  {
    var s1 := InsertLogin(START, 7, NewToken("first", 100));
    var s2 := SettleLogin(s1, 1);
    var s3 := RotateOne(s2, 1, 10);
    assert s3.grants[1] == Grant(1, 7);
    var revoke, save := RevokeOneFamily(1, 11), SaveSuccessor(1, NewToken("second", 200));
    var s4 := Step(s3, revoke);
    assert s4.table.rows.Keys == {1} && s4.table.rows[1].hash == "first";
    assert "first"[0] != "second"[0];
    LastStep(s4, save);
    NextStep(s3, revoke, [save]);
    NextStep(s2, RotateRow(1, 10), [revoke, save]);
    NextStep(s1, LoginSettle(1), [RotateRow(1, 10), revoke, save]);
    NextStep(START, LoginInsert(7, NewToken("first", 100)), [LoginSettle(1), RotateRow(1, 10), revoke, save]);
    assert [LoginInsert(7, NewToken("first", 100))] + [LoginSettle(1), RotateRow(1, 10), revoke, save]
        == [LoginInsert(7, NewToken("first", 100)), LoginSettle(1), RotateRow(1, 10), revoke, save];
  }

  lemma LastStep(s: State, a: Action)
    requires Enabled(s, a)
    ensures CanRun(s, [a]) && Run(s, [a]) == Step(s, a)
  {
    assert [a][1..] == [];
  }

  lemma NextStep(s: State, a: Action, rest: seq<Action>)
    requires Enabled(s, a) && CanRun(Step(s, a), rest)
    ensures CanRun(s, [a] + rest) && Run(s, [a] + rest) == Run(Step(s, a), rest)
  {
    assert ([a] + rest)[0] == a && ([a] + rest)[1..] == rest;
  }

  // ---------------------------------------------------------------------
  // Refreshes that are not interrupted
  // ---------------------------------------------------------------------

  /** Rotation and the saving of its successor happen together. */
  predicate IsAtomic(a: Action) {
    !a.RotateRow? && !a.SaveSuccessor?
  }

  predicate AllAtomic(actions: seq<Action>) {
    forall i :: 0 <= i < |actions| ==> IsAtomic(actions[i])
  }

  lemma AtomicStepLeavesNoGrant(s: State, a: Action)
    requires s.grants == map[] && Enabled(s, a) && IsAtomic(a)
    ensures Step(s, a).grants == map[]
  {
  }

  lemma {:induction false} AtomicRunsLeaveNoGrant(s: State, actions: seq<Action>)
    requires s.grants == map[] && CanRun(s, actions) && AllAtomic(actions)
    ensures Run(s, actions).grants == map[]
    decreases |actions|
  {
    if actions != [] {
      AtomicStepLeavesNoGrant(s, actions[0]);
      AtomicRunsLeaveNoGrant(Step(s, actions[0]), actions[1..]);
    }
  }

  /** With atomic refreshes, a revoked family never again has a redeemable token. */
  lemma RevokedFamiliesStayDead(actions: seq<Action>, family: Id, now: Time, later: seq<Action>, id: Id)
    requires CanRun(START, actions) && AllAtomic(actions) && IsFounded(Run(START, actions), family)
    requires CanRun(Step(Run(START, actions), RevokeOneFamily(family, now)), later)
    ensures !IsLive(Run(Step(Run(START, actions), RevokeOneFamily(family, now)), later), id, family)
  {
    RunsAreSafe(START, actions);
    AtomicRunsLeaveNoGrant(START, actions);
    RevocationIsFinal(Run(START, actions), family, now);
  }

  // ---------------------------------------------------------------------
  // Replays stay detectable
  // ---------------------------------------------------------------------

  predicate IsRetired(s: State, id: Id) {
    id in s.table.rows && s.table.rows[id].rotatedAt.Some? && s.table.rows[id].revokedAt.None?
  }

  predicate IsRevoked(s: State, id: Id) {
    id in s.table.rows && s.table.rows[id].revokedAt.Some?
  }

  /** One step, a pruning in particular, never deletes a rotated but unrevoked row; only its account can. */
  lemma RetiredRowsSurvive(s: State, a: Action, id: Id)
    requires Safe(s) && Enabled(s, a) && IsRetired(s, id)
    ensures IsRetired(Step(s, a), id) || IsRevoked(Step(s, a), id)
         || (a.DeleteAccount? && a.user == s.table.rows[id].user)
  {
    if a.RefreshAtOnce? {
      RefreshKeepsRetired(s, a.hash, a.now, a.token, a.userExists, id);
    }
  }

  lemma RefreshKeepsRetired(s: State, hash: string, now: Time, token: NewToken, userExists: bool, id: Id)
    requires Safe(s) && IsRetired(s, id)
    ensures var s' := HandleRefresh(s, hash, now, token, userExists);
            IsRetired(s', id) || IsRevoked(s', id)
  {
  }

  /** Some state on the way, the last one included, has the row revoked. */
  ghost predicate IsRevokedOnTheWay(s: State, actions: seq<Action>, id: Id)
    requires CanRun(s, actions)
    decreases |actions|
  {
    IsRevoked(s, id) || (actions != [] && IsRevokedOnTheWay(Step(s, actions[0]), actions[1..], id))
  }

  /**
   Split or atomic: along every run without account deletions, a rotated row
   is there, still marked, unless it was revoked on the way.
   */
  lemma {:induction false} RetiredUntilRevoked(s: State, actions: seq<Action>, id: Id)
    requires Safe(s) && CanRun(s, actions) && IsRetired(s, id)
    requires forall i :: 0 <= i < |actions| ==> !actions[i].DeleteAccount?
    ensures IsRetired(Run(s, actions), id) || IsRevokedOnTheWay(s, actions, id)
    decreases |actions|
  {
    if actions != [] {
      StepIsSafe(s, actions[0]);
      RetiredRowsSurvive(s, actions[0], id);
      if IsRetired(Step(s, actions[0]), id) {
        RetiredUntilRevoked(Step(s, actions[0]), actions[1..], id);
      }
    }
  }

  /** Everything ever issued in the family is stored, unrevoked, for one user. */
  predicate IsIntact(s: State, family: Id, user: Id) {
    forall id :: id in s.issued && s.issued[id].family == family ==>
      && id in s.table.rows && s.table.rows[id].family == family && s.table.rows[id].user == user
      && s.table.rows[id].hash == s.issued[id].hash && s.table.rows[id].revokedAt.None?
  }

  ghost predicate LiveFamiliesAreIntact(s: State) {
    && (forall id :: id in s.table.rows && id !in s.pending ==>
          id in s.issued && s.issued[id] == Issue(s.table.rows[id].family, s.table.rows[id].hash))
    && (forall id :: id in s.issued ==> 1 <= id < s.table.nextId && id !in s.pending
                                        && IsFounded(s, s.issued[id].family))
    && (forall id :: id in s.table.rows && s.table.rows[id].Live() && id !in s.pending ==>
          IsIntact(s, s.table.rows[id].family, s.table.rows[id].user))
  }

  ghost predicate Defended(s: State) {
    Safe(s) && s.grants == map[] && LiveFamiliesAreIntact(s)
  }

  lemma InsertLoginIsDefended(s: State, user: Id, token: NewToken)
    requires Defended(s) && HashIsFree(s.table.rows, token.hash)
    ensures Defended(InsertLogin(s, user, token))
  {
    InsertLoginIsSafe(s, user, token);
  }

  lemma SettleLoginIsDefended(s: State, id: Id)
    requires Defended(s) && id in s.pending
    ensures Defended(SettleLogin(s, id))
  {
    SettleLoginIsSafe(s, id);
  }

  lemma PruningIsDefended(s: State, now: Time)
    requires Defended(s)
    ensures Defended(s.(table := DeleteExpired(s.table, now)))
  {
    PruningTakes(s, now);
    TakingIsSafe(s, s.(table := DeleteExpired(s.table, now)));
  }

  lemma RevokeFamilyIsDefended(s: State, family: Id, now: Time)
    requires Defended(s)
    ensures Defended(s.(table := RevokeFamily(s.table, family, now)))
  {
    RevokingTakes(s, family, now);
    TakingIsSafe(s, s.(table := RevokeFamily(s.table, family, now)));
  }

  lemma RevokeUserIsDefended(s: State, user: Id, now: Time)
    requires Defended(s)
    ensures Defended(s.(table := RevokeUser(s.table, user, now)))
  {
    TakingIsSafe(s, s.(table := RevokeUser(s.table, user, now)));
  }

  lemma DeleteUserIsDefended(s: State, user: Id)
    requires Defended(s)
    ensures Defended(s.(table := DeleteUser(s.table, user)))
  {
    TakingIsSafe(s, s.(table := DeleteUser(s.table, user)));
  }

  /** A rotation with its successor: the family is intact before, so it is after. */
  lemma RotateAndSaveIsDefended(s: State, id: Id, now: Time, token: NewToken)
    requires Defended(s) && id !in s.pending && CanRotate(s.table.rows, id) && HashIsFree(s.table.rows, token.hash)
    ensures Defended(SaveOne(RotateOne(s, id, now), id, token))
  {
    var rotated := RotateOne(s, id, now);
    RotateOneIsSafe(s, id, now);
    SaveOneIsSafe(rotated, id, token);
    var s', family, user := SaveOne(rotated, id, token), s.table.rows[id].family, s.table.rows[id].user;
    assert IsIntact(s, family, user);
    SuccessorIsIntact(s, id, now, token, family, user);
    assert s'.grants == map[];
    forall i | i in s'.table.rows && s'.table.rows[i].Live() && i !in s'.pending
      ensures IsIntact(s', s'.table.rows[i].family, s'.table.rows[i].user)
    {
      if i != s.table.nextId {
        assert IsLive(s, i, s.table.rows[i].family) && IsLive(s, id, family);
        SuccessorIsIntact(s, id, now, token, s.table.rows[i].family, s.table.rows[i].user);
      }
    }
  }

  /** A family that is intact before a rotation with its successor is intact afterwards. */
  lemma SuccessorIsIntact(s: State, id: Id, now: Time, token: NewToken, family: Id, user: Id)
    requires WellNumbered(s) && CanRotate(s.table.rows, id) && IsIntact(s, family, user)
    requires s.table.rows[id].family == family ==> s.table.rows[id].user == user
    requires forall i :: i in s.issued ==> 1 <= i < s.table.nextId
    ensures IsIntact(SaveOne(RotateOne(s, id, now), id, token), family, user)
  {
  }

  lemma RotateAndRevokeIsDefended(s: State, id: Id, now: Time)
    requires Defended(s) && id !in s.pending && CanRotate(s.table.rows, id)
    ensures var rotated := RotateOne(s, id, now);
            Defended(rotated.(table := RevokeFamily(rotated.table, s.table.rows[id].family, now),
                              grants := rotated.grants - {id}))
  {
    var rotated, family := RotateOne(s, id, now), s.table.rows[id].family;
    RotateOneIsSafe(s, id, now);
    var revoked := rotated.(table := RevokeFamily(rotated.table, family, now));
    RevokingTakes(rotated, family, now);
    TakingIsSafe(rotated, revoked);
    var s' := revoked.(grants := revoked.grants - {id});
    TakingIsSafe(revoked, s');
    assert s'.grants == map[];
    forall i | i in s'.table.rows && s'.table.rows[i].Live() && i !in s'.pending
      ensures IsIntact(s', s'.table.rows[i].family, s'.table.rows[i].user)
    {
      assert s'.table.rows[i].family != family;
      assert IsIntact(s, s.table.rows[i].family, s.table.rows[i].user);
    }
  }

  lemma RefreshIsDefended(s: State, hash: string, now: Time, token: NewToken, userExists: bool)
    requires Defended(s) && Enabled(s, RefreshAtOnce(hash, now, token, userExists))
    ensures Defended(HandleRefresh(s, hash, now, token, userExists))
  {
    var pruned, id := RefreshWays(s, hash, now, token, userExists);
    PruningIsDefended(s, now);
    if HandleRefresh(s, hash, now, token, userExists) != pruned {
      if !CanRotate(pruned.table.rows, id) {
        RevokeFamilyIsDefended(pruned, pruned.table.rows[id].family, now);
      } else if userExists {
        RotateAndSaveIsDefended(pruned, id, now, token);
      } else {
        RotateAndRevokeIsDefended(pruned, id, now);
      }
    }
  }

  lemma StepIsDefended(s: State, a: Action)
    requires Defended(s) && Enabled(s, a) && IsAtomic(a)
    ensures Defended(Step(s, a))
  {
    match a
    case LoginInsert(user, token) => InsertLoginIsDefended(s, user, token);
    case LoginSettle(id) => SettleLoginIsDefended(s, id);
    case RefreshAtOnce(hash, now, token, userExists) => RefreshIsDefended(s, hash, now, token, userExists);
    case RevokeOneFamily(family, now) => RevokeFamilyIsDefended(s, family, now);
    case RevokeOneUser(user, now) => RevokeUserIsDefended(s, user, now);
    case Prune(now) => PruningIsDefended(s, now);
    case DeleteAccount(user) => DeleteUserIsDefended(s, user);
    case _ =>
  }

  lemma {:induction false} RunsAreDefended(s: State, actions: seq<Action>)
    requires Defended(s) && CanRun(s, actions) && AllAtomic(actions)
    ensures Defended(Run(s, actions))
    decreases |actions|
  {
    if actions != [] {
      StepIsDefended(s, actions[0]);
      RunsAreDefended(Step(s, actions[0]), actions[1..]);
    }
  }

  /** As long as a family has a redeemable token, no token ever issued in it has been lost or revoked. */
  lemma LiveFamiliesKeepTheirHistory(actions: seq<Action>, live: Id, issued: Id)
    requires CanRun(START, actions) && AllAtomic(actions)
    requires var s := Run(START, actions);
             && live in s.table.rows && live !in s.pending && s.table.rows[live].Live()
             && issued in s.issued && s.issued[issued].family == s.table.rows[live].family
    ensures var s := Run(START, actions);
            && issued in s.table.rows && s.table.rows[issued].hash == s.issued[issued].hash
            && (issued == live || IsRetired(s, issued))
  {
    RunsAreDefended(START, actions);
    var s := Run(START, actions);
    var family := s.table.rows[live].family;
    assert IsIntact(s, family, s.table.rows[live].user);
    if s.table.rows[issued].Live() {
      assert IsLive(s, issued, family) && IsLive(s, live, family);
    }
  }

  /**
   Reuse means theft: presenting any earlier token of a live session kills
   the family, and it stays dead.
   */
  lemma ReplayKillsTheFamily(actions: seq<Action>, live: Id, stolen: Id, now: Time, token: NewToken,
                             userExists: bool, later: seq<Action>, id: Id)
    requires CanRun(START, actions) && AllAtomic(actions)
    requires var s := Run(START, actions);
             && live in s.table.rows && live !in s.pending && s.table.rows[live].Live()
             && stolen in s.issued && s.issued[stolen].family == s.table.rows[live].family && stolen != live
             && Enabled(s, RefreshAtOnce(s.issued[stolen].hash, now, token, userExists))
             && CanRun(Step(s, RefreshAtOnce(s.issued[stolen].hash, now, token, userExists)), later)
    ensures var s := Run(START, actions);
            var s' := Step(s, RefreshAtOnce(s.issued[stolen].hash, now, token, userExists));
            !IsLive(Run(s', later), id, s.table.rows[live].family)
  {
    var s := Run(START, actions);
    RunsAreDefended(START, actions);
    LiveFamiliesKeepTheirHistory(actions, live, stolen);
    var family, hash := s.table.rows[live].family, s.issued[stolen].hash;
    assert IsIntact(s, family, s.table.rows[live].user);
    ReplayRevokes(s, stolen, hash, family, now, token, userExists);
    var a := RefreshAtOnce(hash, now, token, userExists);
    StepIsSafe(s, a);
    DeadStaysDead(Step(s, a), later, family);
  }

  lemma ReplayRevokes(s: State, stolen: Id, hash: string, family: Id, now: Time, token: NewToken, userExists: bool)
    requires Safe(s) && s.grants == map[] && IsFounded(s, family)
    requires IsRetired(s, stolen) && s.table.rows[stolen].hash == hash && s.table.rows[stolen].family == family
    ensures IsDead(HandleRefresh(s, hash, now, token, userExists), family)
  {
    var pruned := s.(table := DeleteExpired(s.table, now));
    assert stolen in pruned.table.rows && pruned.table.rows[stolen] == s.table.rows[stolen];
    assert FindByHash(pruned.table.rows, hash) == Some(stolen);
  }
}
