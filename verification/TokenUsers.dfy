/** Logging out everywhere: what revoking all tokens of a user ends. */
module TokenUsers {
  import opened Common
  import opened RefreshTokens
  import opened TokenProtocol
  import TokenFamilies

  // ---------------------------------------------------------------------
  // Sessions begun before a given row
  // ---------------------------------------------------------------------

  /** A token of the user whose session began with a row below `n`; a pending row begins its own. */
  predicate IsSession(s: State, id: Id, user: Id, n: Id) {
    && id in s.table.rows && s.table.rows[id].user == user
    && (if id in s.pending then id else s.table.rows[id].family) < n
  }

  predicate IsLiveSession(s: State, id: Id, user: Id, n: Id) {
    IsSession(s, id, user, n) && s.table.rows[id].Live()
  }

  predicate IsGrantedTo(s: State, id: Id, user: Id, n: Id) {
    id in s.grants && s.grants[id].user == user && s.grants[id].family < n
  }

  /** No session of the user begun before row `n` has a redeemable token, or one still to come. */
  ghost predicate IsLoggedOut(s: State, user: Id, n: Id) {
    && n <= s.table.nextId
    && (forall id :: !IsLiveSession(s, id, user, n))
    && (forall id :: !IsGrantedTo(s, id, user, n))
  }

  lemma TakingKeepsOut(s: State, s': State, user: Id, n: Id)
    requires IsLoggedOut(s, user, n) && OnlyTakes(s, s')
    ensures IsLoggedOut(s', user, n)
  {
    forall id ensures !IsLiveSession(s', id, user, n) && !IsGrantedTo(s', id, user, n) {
      assert !IsLiveSession(s, id, user, n) && !IsGrantedTo(s, id, user, n);
    }
  }

  lemma InsertKeepsOut(s: State, who: Id, token: NewToken, user: Id, n: Id)
    requires IsLoggedOut(s, user, n) && WellNumbered(s)
    ensures IsLoggedOut(InsertLogin(s, who, token), user, n)
  {
    var s' := InsertLogin(s, who, token);
    forall id ensures !IsLiveSession(s', id, user, n) && !IsGrantedTo(s', id, user, n) {
      assert !IsLiveSession(s, id, user, n) && !IsGrantedTo(s, id, user, n);
    }
  }

  lemma SettleKeepsOut(s: State, row: Id, user: Id, n: Id)
    requires IsLoggedOut(s, user, n) && row in s.pending
    ensures IsLoggedOut(SettleLogin(s, row), user, n)
  {
    var s' := SettleLogin(s, row);
    forall id ensures !IsLiveSession(s', id, user, n) && !IsGrantedTo(s', id, user, n) {
      assert !IsLiveSession(s, id, user, n) && !IsGrantedTo(s, id, user, n);
    }
  }

  lemma RotateKeepsOut(s: State, row: Id, now: Time, user: Id, n: Id)
    requires IsLoggedOut(s, user, n) && row !in s.pending
    ensures IsLoggedOut(RotateOne(s, row, now), user, n)
  {
    var s' := RotateOne(s, row, now);
    assert !IsLiveSession(s, row, user, n);
    forall id ensures !IsLiveSession(s', id, user, n) && !IsGrantedTo(s', id, user, n) {
      assert !IsLiveSession(s, id, user, n) && !IsGrantedTo(s, id, user, n);
    }
  }

  lemma SaveKeepsOut(s: State, rotated: Id, token: NewToken, user: Id, n: Id)
    requires IsLoggedOut(s, user, n) && WellNumbered(s) && rotated in s.grants
    ensures IsLoggedOut(SaveOne(s, rotated, token), user, n)
  {
    var s' := SaveOne(s, rotated, token);
    assert !IsGrantedTo(s, rotated, user, n);
    forall id ensures !IsLiveSession(s', id, user, n) && !IsGrantedTo(s', id, user, n) {
      assert !IsLiveSession(s, id, user, n) && !IsGrantedTo(s, id, user, n);
    }
  }

  lemma RefreshKeepsOut(s: State, hash: string, now: Time, token: NewToken, userExists: bool, user: Id, n: Id)
    requires IsLoggedOut(s, user, n) && Safe(s) && Enabled(s, RefreshAtOnce(hash, now, token, userExists))
    ensures IsLoggedOut(HandleRefresh(s, hash, now, token, userExists), user, n)
  {
    var pruned, id := RefreshWays(s, hash, now, token, userExists);
    var after := HandleRefresh(s, hash, now, token, userExists);
    TakingKeepsOut(s, pruned, user, n);
    PruningTakes(s, now);
    TakingIsSafe(s, pruned);
    if after != pruned {
      assert id !in pruned.pending;
      if !CanRotate(pruned.table.rows, id) {
        TakingKeepsOut(pruned, after, user, n);
      } else {
        var rotated := RotateOne(pruned, id, now);
        RotateKeepsOut(pruned, id, now, user, n);
        RotateOneIsSafe(pruned, id, now);
        if userExists {
          SaveKeepsOut(rotated, id, token, user, n);
        } else {
          TakingKeepsOut(rotated, after, user, n);
        }
      }
    }
  }

  lemma StepKeepsOut(s: State, a: Action, user: Id, n: Id)
    requires Safe(s) && Enabled(s, a) && IsLoggedOut(s, user, n)
    ensures IsLoggedOut(Step(s, a), user, n)
  {
    match a
    case LoginInsert(who, token) => InsertKeepsOut(s, who, token, user, n);
    case LoginSettle(id) => SettleKeepsOut(s, id, user, n);
    case RotateRow(id, now) => RotateKeepsOut(s, id, now, user, n);
    case SaveSuccessor(rotated, token) => SaveKeepsOut(s, rotated, token, user, n);
    case RefreshAtOnce(hash, now, token, userExists) =>
      RefreshKeepsOut(s, hash, now, token, userExists, user, n);
    case _ => TakingKeepsOut(s, Step(s, a), user, n);
  }

  lemma {:induction false} LoggedOutStaysOut(s: State, actions: seq<Action>, user: Id, n: Id)
    requires Safe(s) && CanRun(s, actions) && IsLoggedOut(s, user, n)
    ensures IsLoggedOut(Run(s, actions), user, n)
    decreases |actions|
  {
    if actions != [] {
      StepIsSafe(s, actions[0]);
      StepKeepsOut(s, actions[0], user, n);
      LoggedOutStaysOut(Step(s, actions[0]), actions[1..], user, n);
    }
  }

  // ---------------------------------------------------------------------
  // Logging out everywhere
  // ---------------------------------------------------------------------

  /** No later state, however the workers go on, holds a redeemable token of an old session of the user. */
  ghost predicate NeverBack(s: State, user: Id, n: Id) {
    forall actions: seq<Action>, id: Id :: CanRun(s, actions) ==> !IsLiveSession(Run(s, actions), id, user, n)
  }

  ghost predicate HasGrant(s: State, user: Id) {
    exists id :: id in s.grants && s.grants[id].user == user
  }

  lemma RevokingLogsOut(s: State, user: Id, now: Time)
    requires Safe(s) && !HasGrant(s, user)
    ensures IsLoggedOut(Step(s, RevokeOneUser(user, now)), user, s.table.nextId)
  {
  }

  /** Logging a user out everywhere ends every token of that user and none of anybody else. */
  lemma LogoutSparesOthers(s: State, user: Id, now: Time, id: Id, family: Id)
    ensures IsLive(Step(s, RevokeOneUser(user, now)), id, family)
       <==> IsLive(s, id, family) && s.table.rows[id].user != user
  {
  }

  /**
   Revoking all tokens of a user ends every session begun before it, logins
   half done included, in every later interleaving, exactly when no worker
   holds a grant to save a successor for that user.
   */
  lemma LogoutEverywhereIsFinal(s: State, user: Id, now: Time)
    requires Safe(s)
    ensures NeverBack(Step(s, RevokeOneUser(user, now)), user, s.table.nextId) <==> !HasGrant(s, user)
  {
    var revoked, n := Step(s, RevokeOneUser(user, now)), s.table.nextId;
    StepIsSafe(s, RevokeOneUser(user, now));
    if !HasGrant(s, user) {
      RevokingLogsOut(s, user, now);
      forall actions: seq<Action>, id: Id | CanRun(revoked, actions)
        ensures !IsLiveSession(Run(revoked, actions), id, user, n)
      {
        LoggedOutStaysOut(revoked, actions, user, n);
      }
    } else {
      var rotated :| rotated in s.grants && s.grants[rotated].user == user;
      var hash := TokenFamilies.FreeHash(revoked.table.rows);
      var save := SaveSuccessor(rotated, NewToken(hash, now));
      assert rotated in revoked.grants && Enabled(revoked, save);
      TokenFamilies.LastStep(revoked, save);
      assert IsLiveSession(Run(revoked, [save]), n, user, n);
    }
  }
}
