/**
 * TokenService: the ledger of issued refresh tokens. Each row holds the
 * bcrypt hash of a signed refresh token, the id of the user it was issued
 * to, and whether it has been revoked. The table's serial key numbers the
 * rows 1, 2, 3, ... in the order they are saved, and no operation removes
 * a row, so row `id` sits at index `id - 1`.
 */
module TokenService {

  import opened Wrappers
  import opened Errors
  import Bcrypt
  import Pagination
  import Json

  /** A row of the token table. `expiresAt` and `revokedAt` are stored but never read or written after creation. */
  datatype TokenRecord = TokenRecord(
    id: int,
    token: string,
    revoked: bool,
    expiresAt: int,
    revokedAt: Option<int>,
    userId: int)

  /** The serial key: the row at index i has id i + 1. */
  predicate Serial(rows: seq<TokenRecord>)
  {
    forall i :: 0 <= i < |rows| ==> rows[i].id == i + 1
  }

  /** The rows after `update(id, {revoked: true})`: that row revoked, if there is one. */
  function RevokeRow(rows: seq<TokenRecord>, id: int): seq<TokenRecord>
  {
    if 1 <= id <= |rows| then rows[id - 1 := rows[id - 1].(revoked := true)] else rows
  }

  /** The rows after `update({user: {id: userId}}, {revoked: true})`. */
  function RevokeUser(rows: seq<TokenRecord>, userId: int): seq<TokenRecord>
  {
    seq(|rows|, i requires 0 <= i < |rows| => if rows[i].userId == userId then rows[i].(revoked := true) else rows[i])
  }

  /** The rows of one user, by id (the source sets no order). */
  function OwnedBy(rows: seq<TokenRecord>, userId: int): (owned: seq<TokenRecord>)
    ensures forall t :: t in owned <==> t in rows && t.userId == userId
  {
    if rows == [] then []
    else (if rows[0].userId == userId then [rows[0]] else []) + OwnedBy(rows[1..], userId)
  }

  /**
   * Revocation only ever goes one way: every row that existed still exists
   * with the same id, token, owner and timestamps, and a revoked row stays
   * revoked.
   */
  predicate RevocationKept(before: seq<TokenRecord>, after: seq<TokenRecord>)
  {
    |before| <= |after| &&
    forall i :: 0 <= i < |before| ==>
      after[i] == before[i].(revoked := after[i].revoked) && (before[i].revoked ==> after[i].revoked)
  }

  // ---------------------------------------------------------------------
  // What `update` selects

  /**
   * The first argument of `update`, as TypeORM reads it: a number or an
   * array is a list of primary keys; an object is a condition on columns,
   * met by a row that holds each value it names.
   */
  datatype Criteria =
    | Ids(ids: seq<int>)
    | Where(id: Option<int>, token: Option<string>, revoked: Option<bool>, userId: Option<int>)

  /** `revokeAll`'s condition, `{user: {id: userId}}`. */
  function ByUser(userId: int): (c: Criteria)
    ensures forall t :: Selects(c, t) <==> t.userId == userId
  {
    Where(None, None, None, Some(userId))
  }

  predicate Selects(c: Criteria, t: TokenRecord)
  {
    match c
    case Ids(ids) => t.id in ids
    case Where(id, token, revoked, userId) =>
      (id.None? || id.value == t.id) && (token.None? || token.value == t.token) &&
      (revoked.None? || revoked.value == t.revoked) && (userId.None? || userId.value == t.userId)
  }

  /**
   * Every key the criteria compare with a key column (`id`, and the owner's
   * `user.id`) fits the column's `integer` type; otherwise the query fails.
   */
  predicate InRange(c: Criteria)
  {
    match c
    case Ids(ids) => forall i :: 0 <= i < |ids| ==> IsInt4(ids[i])
    case Where(id, _, _, userId) => (id.None? || IsInt4(id.value)) && (userId.None? || IsInt4(userId.value))
  }

  /** The rows after `update(criteria, {revoked: true})`. */
  function RevokeWhere(rows: seq<TokenRecord>, c: Criteria): seq<TokenRecord>
  {
    seq(|rows|, i requires 0 <= i < |rows| => if Selects(c, rows[i]) then rows[i].(revoked := true) else rows[i])
  }

  /** The columns of the token table a JSON condition may name. */
  const Columns: set<string> := {"id", "token", "revoked", "user"}

  /**
   * A row meets a JSON condition when every column the object names holds
   * the value named; `user` names the owner by `{id}`. Of duplicate keys
   * the last counts, as `JSON.parse` keeps it.
   */
  predicate WhereHolds(ms: seq<Json.Member>, t: TokenRecord)
  {
    Meets(Json.Lookup(ms, "id"), Json.Lookup(ms, "token"), Json.Lookup(ms, "revoked"), Json.Lookup(ms, "user"), t)
  }

  /** The values a condition gives for `id`, `token`, `revoked` and `user`, each met by the row or absent. */
  predicate Meets(id: Option<Json.Value>, token: Option<Json.Value>, revoked: Option<Json.Value>, user: Option<Json.Value>, t: TokenRecord)
  {
    id in {None, Some(Json.Number(t.id))} &&
    token in {None, Some(Json.String(t.token))} &&
    revoked in {None, Some(Json.Bool(t.revoked))} &&
    (user.None? || (user.value.Object? && Json.Lookup(user.value.members, "id") == Some(Json.Number(t.userId))))
  }

  /** `{id: n}` for a user: an object all of whose keys are `id`, each with a number. */
  predicate UserKey(ms: seq<Json.Member>)
  {
    ms != [] && forall i :: 0 <= i < |ms| ==> ms[i].key == "id" && ms[i].value.Number?
  }

  /** The condition on the four columns, when each value has its column's type. */
  function Condition(id: Option<Json.Value>, token: Option<Json.Value>, revoked: Option<Json.Value>, user: Option<Json.Value>): (r: Result<Criteria, Failure>)
    ensures r.Ok? ==> forall t :: Selects(r.value, t) <==> Meets(id, token, revoked, user, t)
    ensures r.Err? ==> r.error == QueryFailed
  {
    if id.Some? && !id.value.Number? then Err(QueryFailed)
    else if token.Some? && !token.value.String? then Err(QueryFailed)
    else if revoked.Some? && !revoked.value.Bool? then Err(QueryFailed)
    else if user.Some? && !(user.value.Object? && UserKey(user.value.members)) then Err(QueryFailed)
    else
      var owner := if user.Some? then Json.Lookup(user.value.members, "id") else None;
      Ok(Where(if id.Some? then Some(id.value.n) else None,
               if token.Some? then Some(token.value.s) else None,
               if revoked.Some? then Some(revoked.value.b) else None,
               if owner.Some? then Some(owner.value.n) else None))
  }

  /**
   * An object as a condition: it names only the columns above, each with
   * a value of its column's JSON type and `user` as `{id}`. An unknown
   * column fails in the query. Every other condition is also modelled as a
   * failed query, although the database converts some of them and the
   * update selects rows: a value of another type that PostgreSQL reads from
   * text (0 or 1 for `revoked`, a numeric string for `id` or `user.id`),
   * and an empty `user` object, which TypeORM drops as no condition.
   */
  function WhereOf(ms: seq<Json.Member>): (r: Result<Criteria, Failure>)
    ensures r.Ok? ==> forall t :: Selects(r.value, t) <==> WhereHolds(ms, t)
    ensures r.Ok? ==> forall i :: 0 <= i < |ms| ==> ms[i].key in Columns
    ensures r.Err? ==> r.error == QueryFailed
  {
    if exists i :: 0 <= i < |ms| && ms[i].key !in Columns then Err(QueryFailed)
    else Condition(Json.Lookup(ms, "id"), Json.Lookup(ms, "token"), Json.Lookup(ms, "revoked"), Json.Lookup(ms, "user"))
  }

  /**
   * How `update` reads a JSON value passed as its criteria: a number, and a
   * non-empty array of numbers, are primary keys; an empty array is refused
   * as empty criteria; an object is a condition. Any other value fails in
   * the query. A key outside the `integer` range is read as given: the
   * database refuses it when the update runs (`Ledger.Revoke`).
   */
  function CriteriaOf(v: Json.Value): (r: Result<Criteria, Failure>)
    ensures v.Number? ==> r == Ok(Ids([v.n]))
    ensures r.Ok? && v.Array? ==> forall t :: Selects(r.value, t) <==> Json.Number(t.id) in v.items
    ensures r.Ok? && v.Object? ==> forall t :: Selects(r.value, t) <==> WhereHolds(v.members, t)
    ensures r.Ok? ==> v.Number? || (v.Array? && v.items != []) || v.Object?
    ensures r.Err? ==> r.error == QueryFailed
  {
    match v
    case Number(n) => Ok(Ids([n]))
    case Array(items) =>
      if items != [] && forall i :: 0 <= i < |items| ==> items[i].Number? then
        var ids := seq(|items|, i requires 0 <= i < |items| => items[i].n);
        assert forall n :: n in ids <==> Json.Number(n) in items by {
          forall n ensures n in ids <==> Json.Number(n) in items {
            if n in ids {
              var i :| 0 <= i < |ids| && ids[i] == n;
              assert items[i] == Json.Number(n);
            }
            if Json.Number(n) in items {
              var i :| 0 <= i < |items| && items[i] == Json.Number(n);
              assert ids[i] == n;
            }
          }
        }
        Ok(Ids(ids))
      else Err(QueryFailed)
    case Object(ms) => WhereOf(ms)
    case _ => Err(QueryFailed)
  }

  class Ledger {

    var rows: seq<TokenRecord>

    ghost predicate Valid()
      reads this
    {
      Serial(rows)
    }

    constructor()
      ensures Valid() && rows == []
    {
      rows := [];
    }

    /**
     * `create`: saves a row for `userId` holding the hash of `rawToken`,
     * not revoked, expiring `now` (the column default), never revoked at.
     */
    method Create(userId: int, rawToken: string, now: int) returns (record: TokenRecord)
      requires Valid()
      modifies this
      ensures Valid()
      ensures record == TokenRecord(|old(rows)| + 1, Bcrypt.HashValue(rawToken), false, now, None, userId)
      ensures rows == old(rows) + [record]
    {
      record := TokenRecord(|rows| + 1, Bcrypt.HashValue(rawToken), false, now, None, userId);
      rows := rows + [record];
    }

    /**
     * `findOne`: the row with that id, TypeORM's not-found error, or the
     * database's error for an id outside the key column's range.
     */
    function FindOne(id: int): (r: Result<TokenRecord, Failure>)
      requires Valid()
      reads this
      ensures r.Ok? <==> IsInt4(id) && exists t :: t in rows && t.id == id
      ensures r.Ok? ==> r.value in rows && r.value.id == id
      ensures r.Err? ==> (r.error == QueryFailed <==> !IsInt4(id))
      ensures r.Err? ==> r.error == NotFound || r.error == QueryFailed
    {
      if !IsInt4(id) then Err(QueryFailed)
      else if 1 <= id <= |rows| then Ok(rows[id - 1])
      else
        assert forall t :: t in rows ==> t.id != id;
        Err(NotFound)
    }

    /**
     * `revoke`: `update(id, {revoked: true})`, which marks every row the
     * criteria select revoked, one row after another; selecting no row is
     * no error, a key outside the key column's range fails the whole update.
     */
    method Revoke(c: Criteria) returns (r: Result<(), Failure>)
      requires Valid()
      modifies this
      ensures Valid()
      ensures r.Ok? <==> InRange(c)
      ensures r.Err? ==> r.error == QueryFailed && rows == old(rows)
      ensures r.Ok? ==> rows == RevokeWhere(old(rows), c)
    {
      if !InRange(c) {
        return Err(QueryFailed);
      }
      var i := 0;
      while i < |rows|
        invariant 0 <= i <= |rows| && |rows| == |old(rows)|
        invariant forall j :: 0 <= j < i ==> rows[j] == RevokeWhere(old(rows), c)[j]
        invariant forall j :: i <= j < |rows| ==> rows[j] == old(rows)[j]
      {
        if Selects(c, rows[i]) {
          rows := rows[i := rows[i].(revoked := true)];
        }
        i := i + 1;
      }
      r := Ok(());
    }

    /** `revokeAll`: the update whose condition is the owner. */
    method RevokeAll(userId: int) returns (r: Result<(), Failure>)
      requires Valid()
      modifies this
      ensures Valid()
      ensures r.Ok? <==> IsInt4(userId)
      ensures r.Err? ==> r.error == QueryFailed && rows == old(rows)
      ensures r.Ok? ==> rows == RevokeUser(old(rows), userId)
    {
      ghost var before := rows;
      r := Revoke(ByUser(userId));
      RevokeWhereByUser(before, userId);
    }

    /** `findAll`: the user's rows, listed by id, `offset` skipped and `limit` taken, with the page count. */
    function FindAll(userId: int, page: Option<int>, limit: Option<int>, offset: Option<nat>): (r: Pagination.Listing<TokenRecord>)
      requires limit.None? || limit.value >= 1
      reads this
      ensures forall t :: t in r.items ==> t in rows && t.userId == userId
      ensures r.total == |OwnedBy(rows, userId)|
      ensures r == Pagination.Paginate(OwnedBy(rows, userId), page, limit, offset)
    {
      var owned := OwnedBy(rows, userId);
      var listing := Pagination.Paginate(owned, page, limit, offset);
      assert forall t :: t in listing.items ==> t in owned;
      listing
    }
  }

  // ---------------------------------------------------------------------
  // What the ledger's updates do

  lemma CreateKeepsSerial(rows: seq<TokenRecord>, record: TokenRecord)
    requires Serial(rows) && record.id == |rows| + 1
    ensures Serial(rows + [record])
    ensures RevocationKept(rows, rows + [record])
  {
  }

  /** Revoking touches the one row with that id, and only its flag. */
  lemma RevokeRowEffect(rows: seq<TokenRecord>, id: int)
    requires Serial(rows)
    ensures var after := RevokeRow(rows, id);
            |after| == |rows| && Serial(after) &&
            forall i :: 0 <= i < |rows| ==>
              after[i] == if rows[i].id == id then rows[i].(revoked := true) else rows[i]
  {
  }

  lemma RevokeRowIdempotent(rows: seq<TokenRecord>, id: int)
    ensures RevokeRow(RevokeRow(rows, id), id) == RevokeRow(rows, id)
  {
  }

  lemma RevokeRowKept(rows: seq<TokenRecord>, id: int)
    ensures RevocationKept(rows, RevokeRow(rows, id))
  {
  }

  /** Revoking a user's tokens revokes each of their rows and leaves every other row as it was. */
  lemma RevokeUserEffect(rows: seq<TokenRecord>, userId: int)
    requires Serial(rows)
    ensures var after := RevokeUser(rows, userId);
            |after| == |rows| && Serial(after) &&
            (forall t :: t in after && t.userId == userId ==> t.revoked) &&
            (forall i :: 0 <= i < |rows| && rows[i].userId != userId ==> after[i] == rows[i]) &&
            RevocationKept(rows, after)
  {
  }

  lemma RevokeUserIdempotent(rows: seq<TokenRecord>, userId: int)
    ensures RevokeUser(RevokeUser(rows, userId), userId) == RevokeUser(rows, userId)
  {
  }

  /** Once revoked, a row stays revoked through any later revocation or creation. */
  lemma RevocationKeptTransitive(a: seq<TokenRecord>, b: seq<TokenRecord>, c: seq<TokenRecord>)
    requires RevocationKept(a, b) && RevocationKept(b, c)
    ensures RevocationKept(a, c)
  {
    forall i | 0 <= i < |a|
      ensures c[i] == a[i].(revoked := c[i].revoked) && (a[i].revoked ==> c[i].revoked)
    {
      assert b[i] == a[i].(revoked := b[i].revoked);
    }
  }

  /** A new row joins the end of its owner's listing and no one else's. */
  lemma {:induction false} OwnedByAppend(rows: seq<TokenRecord>, record: TokenRecord, userId: int)
    ensures OwnedBy(rows + [record], userId) ==
              OwnedBy(rows, userId) + if record.userId == userId then [record] else []
  {
    var tail := if record.userId == userId then [record] else [];
    if rows == [] {
      assert rows + [record] == [record];
      assert [record][1..] == [];
    } else {
      var all := rows + [record];
      var head := if rows[0].userId == userId then [rows[0]] else [];
      assert all[0] == rows[0];
      assert all[1..] == rows[1..] + [record];
      OwnedByAppend(rows[1..], record, userId);
      assert OwnedBy(all, userId) == head + (OwnedBy(rows[1..], userId) + tail);
      assert OwnedBy(rows, userId) == head + OwnedBy(rows[1..], userId);
    }
  }

  /** Revoking by primary key selects the one row with that id: the same update as the key alone. */
  lemma RevokeWhereId(rows: seq<TokenRecord>, id: int)
    requires Serial(rows)
    ensures RevokeWhere(rows, Ids([id])) == RevokeRow(rows, id)
  {
    var a, b := RevokeWhere(rows, Ids([id])), RevokeRow(rows, id);
    forall i | 0 <= i < |rows|
      ensures a[i] == b[i]
    {
      assert Selects(Ids([id]), rows[i]) <==> i == id - 1;
    }
  }

  /** `revokeAll`'s condition selects exactly the owner's rows. */
  lemma RevokeWhereByUser(rows: seq<TokenRecord>, userId: int)
    ensures RevokeWhere(rows, ByUser(userId)) == RevokeUser(rows, userId)
  {
  }

  /** Any update of the flag keeps the table's keys, revokes the selected rows and leaves the others as they were. */
  lemma RevokeWhereEffect(rows: seq<TokenRecord>, c: Criteria)
    requires Serial(rows)
    ensures var after := RevokeWhere(rows, c);
            |after| == |rows| && Serial(after) && RevocationKept(rows, after) &&
            forall i :: 0 <= i < |rows| ==> (after[i].revoked <==> rows[i].revoked || Selects(c, rows[i]))
  {
  }
}
