/**
 * UserService: the user table. Rows are numbered by a serial key in the
 * order they are saved and are never removed: `delete` only stamps
 * `deletedAt`, and every read leaves stamped rows out. The database keeps
 * each email unique over all rows, soft-deleted ones included, and rejects
 * a value longer than its varchar column.
 */
module UserService {

  import opened Wrappers
  import opened Errors
  import Bcrypt
  import Pagination

  datatype User = User(
    id: int,
    username: string,
    phone: string,
    email: string,
    password: string,
    points: int,
    deletedAt: Option<int>)

  /** The registration data (`Auth`): what `create` saves. */
  datatype Auth = Auth(email: string, username: string, phone: string, password: string)

  /** `Partial<Auth>`: the fields an update sets; None leaves a field as it is. */
  datatype AuthPatch = AuthPatch(email: Option<string>, username: Option<string>, phone: Option<string>, password: Option<string>)

  const UsernameLength := 50
  const PhoneLength := 20
  const EmailLength := 55
  const PasswordLength := 255

  /** The varchar limits of the user table's columns. */
  predicate Fits(u: User)
  {
    |u.username| <= UsernameLength && |u.phone| <= PhoneLength &&
    |u.email| <= EmailLength && |u.password| <= PasswordLength
  }

  predicate Live(u: User)
  {
    u.deletedAt.None?
  }

  /** The serial key: the row at index i has id i + 1. */
  predicate Serial(rows: seq<User>)
  {
    forall i :: 0 <= i < |rows| ==> rows[i].id == i + 1
  }

  /** No two rows, deleted or not, share an email. */
  predicate UniqueEmails(rows: seq<User>)
  {
    forall i, j :: 0 <= i < j < |rows| ==> rows[i].email != rows[j].email
  }

  predicate EmailTaken(rows: seq<User>, email: string)
  {
    exists u :: u in rows && u.email == email
  }

  /** The table's constraints. */
  predicate Consistent(rows: seq<User>)
  {
    Serial(rows) && UniqueEmails(rows) && forall i :: 0 <= i < |rows| ==> Fits(rows[i])
  }

  /**
   * What the database answers to inserting a row: a value too long for its
   * column is refused first, then an email that any row, deleted or not,
   * already holds; otherwise the row is saved as it is.
   */
  function Insert(rows: seq<User>, u: User): (r: Result<User, Failure>)
    ensures r == Err(ValueTooLong) <==> !Fits(u)
    ensures r == Err(UniqueViolation) <==> Fits(u) && EmailTaken(rows, u.email)
    ensures r.Ok? <==> Fits(u) && !EmailTaken(rows, u.email)
    ensures r.Ok? ==> r.value == u
  {
    if !Fits(u) then Err(ValueTooLong)
    else if EmailTaken(rows, u.email) then Err(UniqueViolation)
    else Ok(u)
  }

  /** The registration data with the password replaced by its bcrypt hash. */
  function Hashed(dto: Auth): (h: Auth)
    ensures h.email == dto.email && h.username == dto.username && h.phone == dto.phone
    ensures Bcrypt.CompareValue(dto.password, h.password)
  {
    dto.(password := Bcrypt.HashValue(dto.password))
  }

  /** The row a fresh `create` saves: the registration data, no points, not deleted. */
  function NewUser(id: int, dto: Auth): User
  {
    User(id, dto.username, dto.phone, dto.email, dto.password, 0, None)
  }

  /** A row with the fields of a patch written over it. */
  function Patched(u: User, patch: AuthPatch): (v: User)
    ensures v.id == u.id && v.points == u.points && v.deletedAt == u.deletedAt
    ensures v.email == (if patch.email.Some? then patch.email.value else u.email)
    ensures v.username == (if patch.username.Some? then patch.username.value else u.username)
    ensures v.phone == (if patch.phone.Some? then patch.phone.value else u.phone)
    ensures v.password == (if patch.password.Some? then patch.password.value else u.password)
  {
    u.(email := if patch.email.Some? then patch.email.value else u.email,
       username := if patch.username.Some? then patch.username.value else u.username,
       phone := if patch.phone.Some? then patch.phone.value else u.phone,
       password := if patch.password.Some? then patch.password.value else u.password)
  }

  /** The live row with that email, if any. */
  function LiveWithEmail(rows: seq<User>, email: string): (r: Option<User>)
    ensures r.Some? ==> r.value in rows && r.value.email == email && Live(r.value)
    ensures r.None? ==> forall u :: u in rows && u.email == email ==> !Live(u)
  {
    if rows == [] then None
    else if rows[0].email == email && Live(rows[0]) then Some(rows[0])
    else LiveWithEmail(rows[1..], email)
  }

  /** The live rows, the last saved first (`createdAt` descending). */
  function NewestFirst(rows: seq<User>): (r: seq<User>)
    ensures forall u :: u in r <==> u in rows && Live(u)
    ensures |r| <= |rows|
  {
    if rows == [] then []
    else
      var last := rows[|rows| - 1];
      (if Live(last) then [last] else []) + NewestFirst(rows[..|rows| - 1])
  }

  class UserTable {

    var rows: seq<User>

    ghost predicate Valid()
      reads this
    {
      Consistent(rows)
    }

    constructor()
      ensures Valid() && rows == []
    {
      rows := [];
    }

    /** `findAll`: live users, newest first, `offset` skipped and `limit` taken, with the page count. */
    function FindAll(page: Option<int>, limit: Option<int>, offset: Option<nat>): (r: Pagination.Listing<User>)
      requires limit.None? || limit.value >= 1
      reads this
      ensures forall u :: u in r.items ==> u in rows && Live(u)
      ensures r.total == |NewestFirst(rows)|
      ensures r == Pagination.Paginate(NewestFirst(rows), page, limit, offset)
    {
      var live := NewestFirst(rows);
      var listing := Pagination.Paginate(live, page, limit, offset);
      assert forall u :: u in listing.items ==> u in live;
      listing
    }

    /**
     * `findOne`: the live user with that id, TypeORM's not-found error, or
     * the database's error for an id outside the key column's range.
     */
    function FindOne(id: int): (r: Result<User, Failure>)
      requires Valid()
      reads this
      ensures r.Ok? <==> IsInt4(id) && exists u :: u in rows && u.id == id && Live(u)
      ensures r.Ok? ==> r.value in rows && r.value.id == id
      ensures r.Err? ==> (r.error == QueryFailed <==> !IsInt4(id))
      ensures r.Err? ==> r.error == NotFound || r.error == QueryFailed
    {
      if !IsInt4(id) then Err(QueryFailed)
      else if 1 <= id <= |rows| && Live(rows[id - 1]) then Ok(rows[id - 1])
      else
        assert forall u :: u in rows && u.id == id ==> u == rows[id - 1];
        Err(NotFound)
    }

    /** `findByEmail`: the live user with that email, or None (`null`), never an error. */
    function FindByEmail(email: string): (r: Option<User>)
      reads this
      ensures r.Some? <==> exists u :: u in rows && u.email == email && Live(u)
      ensures r.Some? ==> r.value in rows && r.value.email == email
    {
      LiveWithEmail(rows, email)
    }

    /**
     * `create`: saves the registration data exactly as given, the password
     * included, under the next id.
     */
    method Create(dto: Auth) returns (r: Result<User, Failure>)
      requires Valid()
      modifies this
      ensures Valid()
      ensures r == Insert(old(rows), NewUser(|old(rows)| + 1, dto))
      ensures rows == if r.Ok? then old(rows) + [r.value] else old(rows)
    {
      r := Save(NewUser(|rows| + 1, dto));
    }

    /** The same as `create`, with the password stored as its bcrypt hash. */
    method CreateHashed(dto: Auth) returns (r: Result<User, Failure>)
      requires Valid()
      modifies this
      ensures Valid()
      ensures r == Insert(old(rows), NewUser(|old(rows)| + 1, Hashed(dto)))
      ensures rows == if r.Ok? then old(rows) + [r.value] else old(rows)
    {
      r := Save(NewUser(|rows| + 1, Hashed(dto)));
    }

    /** The insert both creates perform, checking each stored email against the new one. */
    method Save(u: User) returns (r: Result<User, Failure>)
      requires Valid() && u.id == |rows| + 1
      modifies this
      ensures Valid()
      ensures r == Insert(old(rows), u)
      ensures rows == if r.Ok? then old(rows) + [u] else old(rows)
    {
      if !Fits(u) {
        return Err(ValueTooLong);
      }
      var i := 0;
      while i < |rows|
        invariant 0 <= i <= |rows|
        invariant forall j :: 0 <= j < i ==> rows[j].email != u.email
      {
        if rows[i].email == u.email {
          return Err(UniqueViolation);
        }
        i := i + 1;
      }
      rows := rows + [u];
      r := Ok(u);
    }

    /**
     * `update`: writes the patch over the row with that id (deleted or
     * not; no row, no change), under the same column and email
     * constraints, then reads the row back with `findOne`. An id outside
     * the key column's range fails the update.
     */
    method Update(id: int, patch: AuthPatch) returns (r: Result<User, Failure>)
      requires Valid()
      modifies this
      ensures Valid()
      ensures !IsInt4(id) ==> rows == old(rows) && r == Err(QueryFailed)
      ensures IsInt4(id) && !(1 <= id <= |old(rows)|) ==> rows == old(rows) && r == Err(NotFound)
      ensures IsInt4(id) && 1 <= id <= |old(rows)| ==>
                var v := Patched(old(rows)[id - 1], patch);
                (!Fits(v) ==> r == Err(ValueTooLong) && rows == old(rows)) &&
                (Fits(v) && EmailTakenByOther(old(rows), id, v.email) ==> r == Err(UniqueViolation) && rows == old(rows)) &&
                (Fits(v) && !EmailTakenByOther(old(rows), id, v.email) ==>
                   rows == old(rows)[id - 1 := v] && r == (if Live(v) then Ok(v) else Err(NotFound)))
    {
      if !IsInt4(id) {
        return Err(QueryFailed);
      }
      if !(1 <= id <= |rows|) {
        return Err(NotFound);
      }
      var v := Patched(rows[id - 1], patch);
      if !Fits(v) {
        return Err(ValueTooLong);
      }
      if EmailTakenByOther(rows, id, v.email) {
        return Err(UniqueViolation);
      }
      rows := rows[id - 1 := v];
      r := FindOne(id);
    }

    /**
     * `delete`: stamps the row with that id deleted at `now` and answers
     * whether a row was affected, which is whether the id exists; an id
     * outside the key column's range makes `softDelete` throw.
     */
    method Delete(id: int, now: int) returns (r: Result<bool, Failure>)
      requires Valid()
      modifies this
      ensures Valid()
      ensures r.Err? <==> !IsInt4(id)
      ensures r.Err? ==> r.error == QueryFailed && rows == old(rows)
      ensures r.Ok? ==> (r.value <==> 1 <= id <= |old(rows)|)
      ensures r.Ok? ==> rows == if r.value then old(rows)[id - 1 := old(rows)[id - 1].(deletedAt := Some(now))] else old(rows)
    {
      if !IsInt4(id) {
        return Err(QueryFailed);
      }
      var deleted := 1 <= id <= |rows|;
      if deleted {
        rows := rows[id - 1 := rows[id - 1].(deletedAt := Some(now))];
      }
      r := Ok(deleted);
    }
  }

  /** Whether a row other than the one with that id holds the email. */
  predicate EmailTakenByOther(rows: seq<User>, id: int, email: string)
  {
    exists j :: 0 <= j < |rows| && j != id - 1 && rows[j].email == email
  }

  // ---------------------------------------------------------------------
  // What the table's reads and writes do

  /** A created user is the one `findByEmail` finds by that email. */
  lemma FindCreated(rows: seq<User>, dto: Auth)
    requires Consistent(rows) && !EmailTaken(rows, dto.email)
    ensures LiveWithEmail(rows + [NewUser(|rows| + 1, dto)], dto.email) == Some(NewUser(|rows| + 1, dto))
  {
    var all := rows + [NewUser(|rows| + 1, dto)];
    var r := LiveWithEmail(all, dto.email);
    assert forall i :: 0 <= i < |rows| ==> all[i] == rows[i];
  }

  /** Emails are unique, so at most one row, live or deleted, answers to an email. */
  lemma EmailNamesOneRow(rows: seq<User>, u: User, v: User)
    requires UniqueEmails(rows) && u in rows && v in rows && u.email == v.email
    ensures u == v
  {
    var i :| 0 <= i < |rows| && rows[i] == u;
    var j :| 0 <= j < |rows| && rows[j] == v;
    assert rows[i].email == rows[j].email;
    assert i == j;
  }

  /** A soft-deleted user is found neither by id nor by email, yet still holds the email. */
  lemma DeletedInvisible(rows: seq<User>, id: int, now: int)
    requires Consistent(rows) && 1 <= id <= |rows|
    ensures var after := rows[id - 1 := rows[id - 1].(deletedAt := Some(now))];
            LiveWithEmail(after, rows[id - 1].email).None? &&
            EmailTaken(after, rows[id - 1].email)
  {
    var after := rows[id - 1 := rows[id - 1].(deletedAt := Some(now))];
    var gone := after[id - 1];
    forall u | u in after && u.email == gone.email
      ensures !Live(u)
    {
      var k :| 0 <= k < |after| && after[k] == u;
      assert rows[k].email == rows[id - 1].email;
      assert k == id - 1;
    }
    assert gone in after;
  }

  predicate Descending(users: seq<User>)
  {
    forall i, j :: 0 <= i < j < |users| ==> users[i].id > users[j].id
  }

  /** The listing puts later rows before earlier ones. */
  lemma {:induction false} NewestFirstOrdered(rows: seq<User>)
    requires Serial(rows)
    ensures Descending(NewestFirst(rows))
  {
    if rows != [] {
      var init := rows[..|rows| - 1];
      var last := rows[|rows| - 1];
      assert Serial(init);
      NewestFirstOrdered(init);
      var rest := NewestFirst(init);
      forall u | u in rest
        ensures u.id < last.id
      {
        var k :| 0 <= k < |init| && init[k] == u;
      }
      if Live(last) {
        PrependDescending(last, rest);
      }
    }
  }

  lemma PrependDescending(first: User, rest: seq<User>)
    requires Descending(rest)
    requires forall u :: u in rest ==> u.id < first.id
    ensures Descending([first] + rest)
  {
    var r := [first] + rest;
    forall i, j | 0 <= i < j < |r|
      ensures r[i].id > r[j].id
    {
      assert r[j] == rest[j - 1];
      if i > 0 {
        assert r[i] == rest[i - 1];
      }
    }
  }
}
