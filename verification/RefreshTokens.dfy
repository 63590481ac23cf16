/**
 The refresh-token table of src/db.rs. Every SQL statement is one atomic step
 on the table; row ids are handed out in increasing order and never again.
 Token hashes are opaque, unique values.
 */
module RefreshTokens {
  import opened Common

  type Id = int
  type Time = int

  datatype Token = Token(
    family: Id,
    user: Id,
    hash: string,
    expiresAt: Time,
    rotatedAt: Option<Time>,
    revokedAt: Option<Time>)
  {
    predicate Live() {
      rotatedAt.None? && revokedAt.None?
    }
  }

  /** The values a login or a rotation brings for a new row. */
  datatype NewToken = NewToken(hash: string, expiresAt: Time)

  type Rows = map<Id, Token>

  datatype Table = Table(rows: Rows, nextId: Id)

  datatype SaveError = Duplicate

  // ---------------------------------------------------------------------
  // The statements
  // ---------------------------------------------------------------------

  predicate HashIsFree(rows: Rows, hash: string) {
    forall id :: id in rows ==> rows[id].hash != hash
  }

  function Insert(t: Table, family: Id, user: Id, token: NewToken): Table {
    Table(t.rows[t.nextId := Token(family, user, token.hash, token.expiresAt, None, None)], t.nextId + 1)
  }

  /** Makes a row the root of its own family; nothing happens when the row is gone. */
  function SettleFamily(t: Table, id: Id): Table {
    if id in t.rows then t.(rows := t.rows[id := t.rows[id].(family := id)]) else t
  }

  predicate CanRotate(rows: Rows, id: Id) {
    id in rows && rows[id].Live()
  }

  function Rotate(t: Table, id: Id, now: Time): Table {
    if CanRotate(t.rows, id) then t.(rows := t.rows[id := t.rows[id].(rotatedAt := Some(now))]) else t
  }

  function Revoked(r: Token, now: Time): Token {
    if r.revokedAt.None? then r.(revokedAt := Some(now)) else r
  }

  function RevokeFamily(t: Table, family: Id, now: Time): Table {
    t.(rows := map id | id in t.rows :: if t.rows[id].family == family then Revoked(t.rows[id], now) else t.rows[id])
  }

  function RevokeUser(t: Table, user: Id, now: Time): Table {
    t.(rows := map id | id in t.rows :: if t.rows[id].user == user then Revoked(t.rows[id], now) else t.rows[id])
  }

  predicate IsPrunable(r: Token, now: Time) {
    r.expiresAt < now && r.revokedAt.Some?
  }

  function DeleteExpired(t: Table, now: Time): Table {
    t.(rows := map id | id in t.rows && !IsPrunable(t.rows[id], now) :: t.rows[id])
  }

  /** Deleting an account takes its rows along. */
  function DeleteUser(t: Table, user: Id): Table {
    t.(rows := map id | id in t.rows && t.rows[id].user != user :: t.rows[id])
  }

  /** The row a token value is looked up by. */
  ghost function FindByHash(rows: Rows, hash: string): (r: Option<Id>)
    ensures r.Some? ==> r.value in rows && rows[r.value].hash == hash
    ensures r.None? ==> HashIsFree(rows, hash)
  {
    if exists id :: id in rows && rows[id].hash == hash then
      var id :| id in rows && rows[id].hash == hash;
      Some(id)
    else None
  }

  ghost predicate UniqueHashes(rows: Rows) {
    forall i, j :: i in rows && j in rows && rows[i].hash == rows[j].hash ==> i == j
  }

  /** The repository: the same statements, run in order against the stored table. */
  class RefreshTokenRepository {
    var rows: Rows
    var nextId: Id

    ghost predicate Valid()
      reads this
    {
      1 <= nextId && UniqueHashes(rows) && forall id :: id in rows ==> 1 <= id < nextId
    }

    ghost function Contents(): Table
      reads this
    {
      Table(rows, nextId)
    }

    constructor ()
      ensures Valid() && Contents() == Table(map[], 1)
    {
      rows, nextId := map[], 1;
    }

    /** A token without a family starts its own; two statements, the second only for a new family. */
    method SaveRefreshToken(family: Option<Id>, user: Id, token: NewToken)
      returns (r: Result<(Id, Token), SaveError>)
      requires Valid()
      modifies this
      ensures Valid()
      ensures !HashIsFree(old(rows), token.hash) ==> r == Err(Duplicate) && Contents() == old(Contents())
      ensures HashIsFree(old(rows), token.hash) ==>
                && r.Ok? && r.value.0 == old(nextId) && nextId == old(nextId) + 1
                && rows == old(rows)[r.value.0 := r.value.1]
                && r.value.1 == Token(if family.Some? then family.value else r.value.0, user,
                                      token.hash, token.expiresAt, None, None)
                && Contents() == match family
                                 case Some(f) => Insert(old(Contents()), f, user, token)
                                 case None => SettleFamily(Insert(old(Contents()), 0, user, token), old(nextId))
    {
      if exists id :: id in rows && rows[id].hash == token.hash {
        return Err(Duplicate);
      }
      var placeholder := if family.Some? then family.value else 0;
      var id := nextId;
      rows := rows[id := Token(placeholder, user, token.hash, token.expiresAt, None, None)];
      nextId := nextId + 1;
      if family.None? {
        rows := rows[id := rows[id].(family := id)];
      }
      r := Ok((id, rows[id]));
    }

    method RotateRefreshToken(id: Id, now: Time) returns (rotated: bool)
      requires Valid()
      modifies this
      ensures Valid() && Contents() == Rotate(old(Contents()), id, now)
      ensures rotated == CanRotate(old(rows), id)
      ensures rotated <==> id in old(rows) && old(rows)[id].rotatedAt == None && old(rows)[id].revokedAt == None
      ensures rotated ==> rows == old(rows)[id := old(rows)[id].(rotatedAt := Some(now))]
      ensures !rotated ==> rows == old(rows)
      ensures nextId == old(nextId)
    {
      rotated := id in rows && rows[id].rotatedAt.None? && rows[id].revokedAt.None?;
      if rotated {
        rows := rows[id := rows[id].(rotatedAt := Some(now))];
      }
    }

    method RevokeRefreshTokenFamily(family: Id, now: Time)
      requires Valid()
      modifies this
      ensures Valid() && Contents() == RevokeFamily(old(Contents()), family, now)
      ensures nextId == old(nextId) && rows.Keys == old(rows).Keys
      ensures forall id :: id in rows ==>
                rows[id] == if old(rows)[id].family == family && old(rows)[id].revokedAt == None
                            then old(rows)[id].(revokedAt := Some(now)) else old(rows)[id]
    {
      var was := rows;
      rows := map id | id in was ::
        if was[id].family == family && was[id].revokedAt.None? then was[id].(revokedAt := Some(now)) else was[id];
      ghost var spec := RevokeFamily(Table(was, nextId), family, now).rows;
      assert rows.Keys == spec.Keys;
      assert forall id :: id in rows ==> rows[id] == spec[id];
      KeepsHashes(was, rows);
    }

    method RevokeAllRefreshTokens(user: Id, now: Time)
      requires Valid()
      modifies this
      ensures Valid() && Contents() == RevokeUser(old(Contents()), user, now)
      ensures nextId == old(nextId) && rows.Keys == old(rows).Keys
      ensures forall id :: id in rows ==>
                rows[id] == if old(rows)[id].user == user && old(rows)[id].revokedAt == None
                            then old(rows)[id].(revokedAt := Some(now)) else old(rows)[id]
    {
      var was := rows;
      rows := map id | id in was ::
        if was[id].user == user && was[id].revokedAt.None? then was[id].(revokedAt := Some(now)) else was[id];
      ghost var spec := RevokeUser(Table(was, nextId), user, now).rows;
      assert rows.Keys == spec.Keys;
      assert forall id :: id in rows ==> rows[id] == spec[id];
      KeepsHashes(was, rows);
    }

    method DeleteExpiredRefreshTokens(now: Time) returns (deleted: nat)
      requires Valid()
      modifies this
      ensures Valid() && Contents() == DeleteExpired(old(Contents()), now)
      ensures deleted == |set id | id in old(rows) && old(rows)[id].expiresAt < now && old(rows)[id].revokedAt != None|
      ensures nextId == old(nextId)
      ensures forall id :: id in rows <==>
                id in old(rows) && (now <= old(rows)[id].expiresAt || old(rows)[id].revokedAt == None)
      ensures forall id :: id in rows ==> rows[id] == old(rows)[id]
    {
      var gone := set id | id in rows && rows[id].expiresAt < now && rows[id].revokedAt.Some?;
      deleted := |gone|;
      assert gone == set id | id in rows && rows[id].expiresAt < now && rows[id].revokedAt != None;
      var was := rows;
      rows := map id | id in was && id !in gone :: was[id];
      ghost var spec := DeleteExpired(Table(was, nextId), now).rows;
      assert forall id :: id in was ==> (id in gone <==> IsPrunable(was[id], now));
      assert forall id :: id in rows <==> id in spec;
      assert rows.Keys == spec.Keys;
      assert forall id :: id in rows ==> rows[id] == spec[id];
    }
  }

  /** What the revocations take, row by row, and that they spare everything else. */
  lemma RevocationsInRows(t: Table, who: Id, now: Time, id: Id)
    requires id in t.rows
    ensures RevokeFamily(t, who, now).rows.Keys == t.rows.Keys && RevokeFamily(t, who, now).nextId == t.nextId
    ensures RevokeUser(t, who, now).rows.Keys == t.rows.Keys && RevokeUser(t, who, now).nextId == t.nextId
    ensures var r, after := t.rows[id], RevokeFamily(t, who, now).rows[id];
            if r.family == who && r.revokedAt == None then after == r.(revokedAt := Some(now)) else after == r
    ensures var r, after := t.rows[id], RevokeUser(t, who, now).rows[id];
            if r.user == who && r.revokedAt == None then after == r.(revokedAt := Some(now)) else after == r
  {
  }

  /** What goes, row by row, when expired tokens are pruned and when an account is deleted. */
  lemma DeletionsInRows(t: Table, user: Id, now: Time, id: Id)
    requires id in t.rows
    ensures id in DeleteExpired(t, now).rows <==> now <= t.rows[id].expiresAt || t.rows[id].revokedAt == None
    ensures id in DeleteExpired(t, now).rows ==> DeleteExpired(t, now).rows[id] == t.rows[id]
    ensures id in DeleteUser(t, user).rows <==> t.rows[id].user != user
    ensures id in DeleteUser(t, user).rows ==> DeleteUser(t, user).rows[id] == t.rows[id]
  {
  }

  lemma KeepsHashes(before: Rows, after: Rows)
    requires UniqueHashes(before) && after.Keys == before.Keys
    requires forall id :: id in after ==> after[id].hash == before[id].hash
    ensures UniqueHashes(after)
  {
  }
}
