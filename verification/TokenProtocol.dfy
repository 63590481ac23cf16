/**
 Concurrent workers on the refresh-token table: logins, rotations, saved
 successors, revocations, prunings and deleted accounts, interleaved statement
 by statement.
 */
module TokenProtocol {
  import opened Common
  import opened RefreshTokens

  /** The right to save one successor, earned by a rotation that returned true. */
  datatype Grant = Grant(family: Id, user: Id)

  /** What a finished save handed out: the family and the hash of its value. */
  datatype Issue = Issue(family: Id, hash: string)

  datatype State = State(
    table: Table,
    pending: set<Id>,      // rows inserted by a login whose family is not set yet
    grants: map<Id, Grant>, // by rotated row
    issued: map<Id, Issue>) // every token ever handed out

  const START := State(Table(map[], 1), {}, map[], map[])

  datatype Action =
    | LoginInsert(user: Id, token: NewToken)
    | LoginSettle(id: Id)
    | RotateRow(id: Id, now: Time)
    | SaveSuccessor(rotated: Id, token: NewToken)
    | Abandon(rotated: Id)
    | RefreshAtOnce(hash: string, now: Time, token: NewToken, userExists: bool)
    | RevokeOneFamily(family: Id, now: Time)
    | RevokeOneUser(user: Id, now: Time)
    | Prune(now: Time)
    | DeleteAccount(user: Id)

  /**
   What workers can do. A token value leaves the server when its save has
   returned, so no request can present a row still pending; a successor is
   saved only on a grant; new hashes are new.
   */
  ghost predicate Enabled(s: State, a: Action) {
    match a
    case LoginInsert(user, token) => HashIsFree(s.table.rows, token.hash)
    case LoginSettle(id) => id in s.pending
    case RotateRow(id, now) => id !in s.pending
    case SaveSuccessor(rotated, token) => rotated in s.grants && HashIsFree(s.table.rows, token.hash)
    case Abandon(rotated) => rotated in s.grants
    case RefreshAtOnce(hash, now, token, userExists) =>
      HashIsFree(s.table.rows, token.hash)
      && forall id :: id in s.pending && id in s.table.rows ==> s.table.rows[id].hash != hash
    case _ => true
  }

  function InsertLogin(s: State, user: Id, token: NewToken): State {
    s.(table := Insert(s.table, 0, user, token), pending := s.pending + {s.table.nextId})
  }

  function SettleLogin(s: State, id: Id): State {
    s.(table := SettleFamily(s.table, id), pending := s.pending - {id},
       issued := if id in s.table.rows then s.issued[id := Issue(id, s.table.rows[id].hash)] else s.issued)
  }

  function RotateOne(s: State, id: Id, now: Time): State {
    s.(table := Rotate(s.table, id, now),
       grants := if CanRotate(s.table.rows, id)
                 then s.grants[id := Grant(s.table.rows[id].family, s.table.rows[id].user)] else s.grants)
  }

  function SaveOne(s: State, rotated: Id, token: NewToken): State
    requires rotated in s.grants
  {
    var g := s.grants[rotated];
    s.(table := Insert(s.table, g.family, g.user, token), grants := s.grants - {rotated},
       issued := s.issued[s.table.nextId := Issue(g.family, token.hash)])
  }

  /** The refresh handler of src/routes/auth.rs, run without interruption. */
  ghost function HandleRefresh(s: State, hash: string, now: Time, token: NewToken, userExists: bool): State {
    var pruned := s.(table := DeleteExpired(s.table, now));
    match FindByHash(pruned.table.rows, hash)
    case None => pruned
    case Some(id) =>
      var row := pruned.table.rows[id];
      if row.revokedAt.Some? then pruned
      else if row.rotatedAt.Some? then pruned.(table := RevokeFamily(pruned.table, row.family, now))
      else if row.expiresAt <= now then pruned
      else
        var rotated := RotateOne(pruned, id, now);
        if !userExists then
          rotated.(table := RevokeFamily(rotated.table, row.family, now), grants := rotated.grants - {id})
        else SaveOne(rotated, id, token)
  }

  /** A rotation for a user who is gone: the family is revoked and no successor will be saved. */
  function RotateAndRevoke(s: State, id: Id, now: Time): State
    requires id in s.table.rows
  {
    var rotated := RotateOne(s, id, now);
    rotated.(table := RevokeFamily(rotated.table, s.table.rows[id].family, now), grants := rotated.grants - {id})
  }

  ghost function Step(s: State, a: Action): State
    requires Enabled(s, a)
  {
    match a
    case LoginInsert(user, token) => InsertLogin(s, user, token)
    case LoginSettle(id) => SettleLogin(s, id)
    case RotateRow(id, now) => RotateOne(s, id, now)
    case SaveSuccessor(rotated, token) => SaveOne(s, rotated, token)
    case Abandon(rotated) => s.(grants := s.grants - {rotated})
    case RefreshAtOnce(hash, now, token, userExists) => HandleRefresh(s, hash, now, token, userExists)
    case RevokeOneFamily(family, now) => s.(table := RevokeFamily(s.table, family, now))
    case RevokeOneUser(user, now) => s.(table := RevokeUser(s.table, user, now))
    case Prune(now) => s.(table := DeleteExpired(s.table, now))
    case DeleteAccount(user) => s.(table := DeleteUser(s.table, user))
  }

  ghost predicate CanRun(s: State, actions: seq<Action>)
    decreases |actions|
  {
    actions == [] || (Enabled(s, actions[0]) && CanRun(Step(s, actions[0]), actions[1..]))
  }

  ghost function Run(s: State, actions: seq<Action>): State
    requires CanRun(s, actions)
    decreases |actions|
  {
    if actions == [] then s else Run(Step(s, actions[0]), actions[1..])
  }

  // ---------------------------------------------------------------------
  // At most one redeemable token a family
  // ---------------------------------------------------------------------

  /** A family that some login has founded. */
  predicate IsFounded(s: State, family: Id) {
    1 <= family < s.table.nextId && family !in s.pending
  }

  predicate WellNumbered(s: State) {
    && 1 <= s.table.nextId
    && (forall id :: id in s.table.rows ==> 1 <= id < s.table.nextId)
    && (forall id :: id in s.pending ==> 1 <= id < s.table.nextId)
    && (forall id :: id in s.grants ==> IsFounded(s, s.grants[id].family))
    && (forall id :: id in s.table.rows ==>
          if id in s.pending then s.table.rows[id].family == 0 else IsFounded(s, s.table.rows[id].family))
  }

  ghost predicate IsLive(s: State, id: Id, family: Id) {
    id in s.table.rows && s.table.rows[id].family == family && s.table.rows[id].Live()
  }

  predicate IsGranted(s: State, id: Id, family: Id) {
    id in s.grants && s.grants[id].family == family
  }

  /** No two live tokens, no two grants, and no live token beside a grant in one family. */
  ghost predicate OneLiveToken(s: State) {
    && (forall i, j, f :: f != 0 && IsLive(s, i, f) && IsLive(s, j, f) ==> i == j)
    && (forall i, j, f :: IsGranted(s, i, f) && IsGranted(s, j, f) ==> i == j)
    && (forall i, j, f :: IsLive(s, i, f) ==> !IsGranted(s, j, f))
  }

  ghost predicate Safe(s: State) {
    WellNumbered(s) && UniqueHashes(s.table.rows) && OneLiveToken(s)
  }

  /** A step that hands out nothing: rows may go, tokens may die, grants may lapse. */
  predicate OnlyTakes(s: State, s': State) {
    && s'.table.nextId == s.table.nextId && s'.pending == s.pending && s'.issued == s.issued
    && (forall id :: id in s'.grants ==> id in s.grants && s'.grants[id] == s.grants[id])
    && (forall id :: id in s'.table.rows ==>
          && id in s.table.rows
          && s'.table.rows[id].family == s.table.rows[id].family
          && s'.table.rows[id].user == s.table.rows[id].user
          && s'.table.rows[id].hash == s.table.rows[id].hash
          && s'.table.rows[id].rotatedAt == s.table.rows[id].rotatedAt
          && (s.table.rows[id].revokedAt.Some? ==> s'.table.rows[id].revokedAt == s.table.rows[id].revokedAt))
  }

  lemma TakingIsSafe(s: State, s': State)
    requires Safe(s) && OnlyTakes(s, s')
    ensures Safe(s')
  {
    forall i, f | IsLive(s', i, f) ensures IsLive(s, i, f) {
    }
    forall i, f | IsGranted(s', i, f) ensures IsGranted(s, i, f) {
    }
  }

  lemma InsertLoginIsSafe(s: State, user: Id, token: NewToken)
    requires Safe(s) && HashIsFree(s.table.rows, token.hash)
    ensures Safe(InsertLogin(s, user, token))
  {
    var s' := InsertLogin(s, user, token);
    forall i, f | f != 0 && IsLive(s', i, f) ensures IsLive(s, i, f) {
    }
    forall i, f | IsGranted(s', i, f) ensures IsGranted(s, i, f) {
    }
  }

  lemma SettleLoginIsSafe(s: State, id: Id)
    requires Safe(s) && id in s.pending
    ensures Safe(SettleLogin(s, id))
  {
    var s' := SettleLogin(s, id);
    forall i, f | IsLive(s', i, f) ensures if i == id then f == id else IsLive(s, i, f) && f != id {
    }
    forall i, f | IsGranted(s', i, f) ensures IsGranted(s, i, f) && f != id {
    }
  }

  lemma RotateOneIsSafe(s: State, id: Id, now: Time)
    requires Safe(s) && id !in s.pending
    ensures Safe(RotateOne(s, id, now))
  {
    if CanRotate(s.table.rows, id) {
      var s', family := RotateOne(s, id, now), s.table.rows[id].family;
      assert IsLive(s, id, family);
      forall i, f | IsLive(s', i, f) ensures i != id && IsLive(s, i, f) {
      }
      forall i, f | IsGranted(s', i, f) ensures if i == id then f == family else IsGranted(s, i, f) {
      }
    } else {
      assert RotateOne(s, id, now) == s;
    }
  }

  lemma SaveOneIsSafe(s: State, rotated: Id, token: NewToken)
    requires Safe(s) && rotated in s.grants && HashIsFree(s.table.rows, token.hash)
    ensures Safe(SaveOne(s, rotated, token))
  {
    var s', family, id := SaveOne(s, rotated, token), s.grants[rotated].family, s.table.nextId;
    assert IsGranted(s, rotated, family);
    forall i, f | IsLive(s', i, f) ensures if i == id then f == family else IsLive(s, i, f) {
    }
    forall i, f | IsGranted(s', i, f) ensures i != rotated && IsGranted(s, i, f) {
    }
  }

  lemma PruningTakes(s: State, now: Time)
    ensures OnlyTakes(s, s.(table := DeleteExpired(s.table, now)))
  {
  }

  lemma RevokingTakes(s: State, family: Id, now: Time)
    ensures OnlyTakes(s, s.(table := RevokeFamily(s.table, family, now)))
  {
  }

  /**
   The ways of the handler: it only prunes; it finds a rotated token and
   revokes; it rotates and finds no user; or it rotates and saves.
   */
  lemma RefreshWays(s: State, hash: string, now: Time, token: NewToken, userExists: bool)
    returns (pruned: State, id: Id)
    ensures pruned == s.(table := DeleteExpired(s.table, now))
    ensures HandleRefresh(s, hash, now, token, userExists) != pruned ==>
              id in pruned.table.rows && pruned.table.rows[id].hash == hash && pruned.table.rows[id].revokedAt.None?
    ensures HandleRefresh(s, hash, now, token, userExists) ==
            if HandleRefresh(s, hash, now, token, userExists) == pruned then pruned
            else if !CanRotate(pruned.table.rows, id) then
              pruned.(table := RevokeFamily(pruned.table, pruned.table.rows[id].family, now))
            else if !userExists then RotateAndRevoke(pruned, id, now)
            else SaveOne(RotateOne(pruned, id, now), id, token)
  {
    pruned := s.(table := DeleteExpired(s.table, now));
    var found := FindByHash(pruned.table.rows, hash);
    id := if found.Some? then found.value else 0;
  }

  /** A row that a pruning at `now` leaves. */
  predicate StaysAt(s: State, id: Id, now: Time) {
    id in s.table.rows && (now <= s.table.rows[id].expiresAt || s.table.rows[id].revokedAt == None)
  }

  /** Nothing but the pruning happens. */
  ghost predicate OnlyPrunes(s: State, s': State, now: Time) {
    && s' == s.(table := s'.table) && s'.table.nextId == s.table.nextId
    && (forall id :: id in s'.table.rows <==> StaysAt(s, id, now))
    && (forall id :: id in s'.table.rows ==> s'.table.rows[id] == s.table.rows[id])
  }

  /** A row of a family that dies at `now`, and any row of another one. */
  function AsRevoked(r: Token, family: Id, now: Time): Token {
    if r.family == family && r.revokedAt == None then r.(revokedAt := Some(now)) else r
  }

  /** A token that nobody holds, and one that is revoked, or expired but unused, get nothing. */
  lemma RefusedRefresh(s: State, hash: string, now: Time, token: NewToken, userExists: bool, id: Id)
    requires Safe(s)
    requires HashIsFree(s.table.rows, hash)
          || (id in s.table.rows && s.table.rows[id].hash == hash
              && (s.table.rows[id].revokedAt != None
                  || (s.table.rows[id].rotatedAt == None && s.table.rows[id].expiresAt <= now)))
    ensures OnlyPrunes(s, HandleRefresh(s, hash, now, token, userExists), now)
  {
  }

  /** A rotated token kills its family, and no other. */
  lemma ReplayedRefresh(s: State, hash: string, now: Time, token: NewToken, userExists: bool, id: Id)
    requires Safe(s) && id in s.table.rows && s.table.rows[id].hash == hash
    requires s.table.rows[id].rotatedAt != None && s.table.rows[id].revokedAt == None
    ensures var s' := HandleRefresh(s, hash, now, token, userExists);
            && s' == s.(table := s'.table) && s'.table.nextId == s.table.nextId
            && (forall i :: i in s'.table.rows <==> StaysAt(s, i, now))
            && (forall i :: i in s'.table.rows ==>
                  s'.table.rows[i] == AsRevoked(s.table.rows[i], s.table.rows[id].family, now))
  {
  }

  /**
   A live token is retired, and its successor saved in the same family for the
   same user; if the user is gone, the family dies instead.
   */
  lemma GrantedRefresh(s: State, hash: string, now: Time, token: NewToken, userExists: bool, id: Id)
    requires Safe(s) && id in s.table.rows && s.table.rows[id].hash == hash
    requires s.table.rows[id].rotatedAt == None && s.table.rows[id].revokedAt == None
    requires now < s.table.rows[id].expiresAt
    ensures var s', row, next := HandleRefresh(s, hash, now, token, userExists), s.table.rows[id], s.table.nextId;
            && s'.pending == s.pending && s'.grants == s.grants - {id}
            && (forall i :: i in s'.table.rows <==> StaysAt(s, i, now) || (userExists && i == next))
            && (userExists ==>
                  && s'.table.nextId == next + 1
                  && s'.table.rows[next] == Token(row.family, row.user, token.hash, token.expiresAt, None, None)
                  && s'.issued == s.issued[next := Issue(row.family, token.hash)]
                  && s'.table.rows[id] == row.(rotatedAt := Some(now))
                  && forall i :: i in s'.table.rows && i != next && i != id ==> s'.table.rows[i] == s.table.rows[i])
            && (!userExists ==>
                  && s'.table.nextId == next && s'.issued == s.issued
                  && s'.table.rows[id] == row.(rotatedAt := Some(now), revokedAt := Some(now))
                  && forall i :: i in s'.table.rows && i != id ==>
                       s'.table.rows[i] == AsRevoked(s.table.rows[i], row.family, now))
  {
    var pruned := s.(table := DeleteExpired(s.table, now));
    assert id in pruned.table.rows;
    var found := FindByHash(pruned.table.rows, hash);
    assert s.table.rows[found.value].hash == hash;
    assert found == Some(id);
  }

  /** What the handler finds under the presented hash, and which of its four ways it goes. */
  lemma RefreshIsSafe(s: State, hash: string, now: Time, token: NewToken, userExists: bool)
    requires Safe(s) && Enabled(s, RefreshAtOnce(hash, now, token, userExists))
    ensures Safe(HandleRefresh(s, hash, now, token, userExists))
  {
    var pruned, id := RefreshWays(s, hash, now, token, userExists);
    PruningTakes(s, now);
    TakingIsSafe(s, pruned);
    if HandleRefresh(s, hash, now, token, userExists) != pruned {
      var family := pruned.table.rows[id].family;
      if !CanRotate(pruned.table.rows, id) {
        RevokingTakes(pruned, family, now);
        TakingIsSafe(pruned, pruned.(table := RevokeFamily(pruned.table, family, now)));
      } else if userExists {
        RotateOneIsSafe(pruned, id, now);
        SaveOneIsSafe(RotateOne(pruned, id, now), id, token);
      } else {
        RotateAndRevokeIsSafe(pruned, id, now);
      }
    }
  }

  lemma RotateAndRevokeIsSafe(s: State, id: Id, now: Time)
    requires Safe(s) && id in s.table.rows && id !in s.pending
    ensures Safe(RotateAndRevoke(s, id, now))
  {
    var rotated, family := RotateOne(s, id, now), s.table.rows[id].family;
    var revoked := rotated.(table := RevokeFamily(rotated.table, family, now));
    RotateOneIsSafe(s, id, now);
    RevokingTakes(rotated, family, now);
    TakingIsSafe(rotated, revoked);
    TakingIsSafe(revoked, revoked.(grants := revoked.grants - {id}));
  }

  lemma StepIsSafe(s: State, a: Action)
    requires Safe(s) && Enabled(s, a)
    ensures Safe(Step(s, a))
  {
    match a
    case LoginInsert(user, token) => InsertLoginIsSafe(s, user, token);
    case LoginSettle(id) => SettleLoginIsSafe(s, id);
    case RotateRow(id, now) => RotateOneIsSafe(s, id, now);
    case SaveSuccessor(rotated, token) => SaveOneIsSafe(s, rotated, token);
    case RefreshAtOnce(hash, now, token, userExists) => RefreshIsSafe(s, hash, now, token, userExists);
    case Abandon(rotated) => TakingIsSafe(s, Step(s, a));
    case RevokeOneFamily(family, now) => TakingIsSafe(s, Step(s, a));
    case RevokeOneUser(user, now) => TakingIsSafe(s, Step(s, a));
    case Prune(now) => TakingIsSafe(s, Step(s, a));
    case DeleteAccount(user) => TakingIsSafe(s, Step(s, a));
  }

  lemma {:induction false} RunsAreSafe(s: State, actions: seq<Action>)
    requires Safe(s) && CanRun(s, actions)
    ensures Safe(Run(s, actions))
    decreases |actions|
  {
    if actions != [] {
      StepIsSafe(s, actions[0]);
      RunsAreSafe(Step(s, actions[0]), actions[1..]);
    }
  }

  ghost function LiveTokens(s: State, family: Id): set<Id> {
    set id | id in s.table.rows && IsLive(s, id, family)
  }

  function Grants(s: State, family: Id): set<Id> {
    set id | id in s.grants && IsGranted(s, id, family)
  }

  lemma AtMostOne<T>(a: set<T>)
    requires forall x, y :: x in a && y in a ==> x == y
    ensures |a| <= 1
  {
    if a != {} {
      var x :| x in a;
      assert a == {x};
    }
  }

  /**
   In every interleaving, a family has at most one token that is neither
   rotated nor revoked, a granted but unsaved successor included.
   */
  lemma OneTokenPerFamily(actions: seq<Action>, family: Id)
    requires CanRun(START, actions) && family != 0
    ensures var s := Run(START, actions);
            |LiveTokens(s, family)| + |Grants(s, family)| <= 1
  {
    RunsAreSafe(START, actions);
    var s := Run(START, actions);
    AtMostOne(LiveTokens(s, family));
    AtMostOne(Grants(s, family));
    if LiveTokens(s, family) != {} {
      var i :| i in LiveTokens(s, family);
      assert Grants(s, family) == {};
    }
  }

  // ---------------------------------------------------------------------
  // Marks are set once, and a token rotates at most once
  // ---------------------------------------------------------------------

  /** Marks that are set stay as they are, and rows that are gone stay gone. */
  predicate KeepsMarks(s: State, s': State) {
    && s.table.nextId <= s'.table.nextId
    && (forall id :: id in s'.table.rows && id < s.table.nextId ==>
          && id in s.table.rows
          && (s.table.rows[id].rotatedAt.Some? ==> s'.table.rows[id].rotatedAt == s.table.rows[id].rotatedAt)
          && (s.table.rows[id].revokedAt.Some? ==> s'.table.rows[id].revokedAt == s.table.rows[id].revokedAt))
  }

  lemma RefreshKeepsMarks(s: State, hash: string, now: Time, token: NewToken, userExists: bool)
    requires Safe(s) && Enabled(s, RefreshAtOnce(hash, now, token, userExists))
    ensures KeepsMarks(s, HandleRefresh(s, hash, now, token, userExists))
  {
  }

  lemma StepKeepsMarks(s: State, a: Action)
    requires Safe(s) && Enabled(s, a)
    ensures KeepsMarks(s, Step(s, a))
  {
    if a.RefreshAtOnce? {
      RefreshKeepsMarks(s, a.hash, a.now, a.token, a.userExists);
    }
  }

  /** Over every run, `rotated_at` and `revoked_at` never change once set, and ids are never reused. */
  lemma {:induction false} RunsKeepMarks(s: State, actions: seq<Action>)
    requires Safe(s) && CanRun(s, actions)
    ensures KeepsMarks(s, Run(s, actions))
    decreases |actions|
  {
    if actions != [] {
      StepIsSafe(s, actions[0]);
      StepKeepsMarks(s, actions[0]);
      RunsKeepMarks(Step(s, actions[0]), actions[1..]);
    }
  }

  predicate WasRotated(s: State, id: Id) {
    id in s.table.rows && s.table.rows[id].rotatedAt.Some?
  }

  /** How often a run rotates a row: a row not rotated before a step is rotated after it. */
  ghost function Rotations(s: State, actions: seq<Action>, id: Id): nat
    requires CanRun(s, actions)
    decreases |actions|
  {
    if actions == [] then 0
    else
      var s' := Step(s, actions[0]);
      (if !WasRotated(s, id) && WasRotated(s', id) then 1 else 0) + Rotations(s', actions[1..], id)
  }

  /** Nothing is left to rotate: the row has been rotated, or is gone for good. */
  predicate IsSpent(s: State, id: Id) {
    WasRotated(s, id) || (id < s.table.nextId && id !in s.table.rows)
  }

  /** In every run, each token rotates successfully at most once. */
  lemma {:induction false} RotatesAtMostOnce(s: State, actions: seq<Action>, id: Id)
    requires Safe(s) && CanRun(s, actions)
    ensures Rotations(s, actions, id) <= if IsSpent(s, id) then 0 else 1
    decreases |actions|
  {
    if actions != [] {
      StepIsSafe(s, actions[0]);
      StepKeepsMarks(s, actions[0]);
      RotatesAtMostOnce(Step(s, actions[0]), actions[1..], id);
    }
  }
}
