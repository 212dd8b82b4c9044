/**
 * AuthService: the session lifecycle over the user table and the token
 * ledger. Signing in (`login`, `register`) or rotating (`refresh`) issues an
 * access JWT, a refresh JWT and one ledger row holding the refresh JWT's
 * hash; the client receives the refresh JWT wrapped in an envelope that
 * names the row. `logout` revokes the row the envelope names; `refresh` on a
 * revoked row revokes every row of the user (reuse detection).
 */
module AuthService {

  import opened Wrappers
  import opened Errors
  import opened Json
  import TokenEncoder
  import Bcrypt
  import opened TokenService
  import opened UserService

  /** The secret and lifetime a JWT is signed with. */
  datatype SigningKey = SigningKey(secret: string, expiresIn: string)

  /**
   * jsonwebtoken's `sign` for a payload `{id}` and a key: the token, or
   * None where it throws. Signing is not modelled; it is a parameter.
   */
  datatype Jwt = Jwt(sign: (int, SigningKey) -> Option<string>, access: SigningKey, refresh: SigningKey)

  datatype Tokens = Tokens(accessToken: string, refreshToken: string)

  /** What `login` and `register` answer with. */
  datatype Session = Session(user: User, tokens: Tokens)

  function TokensOf(r: Result<Session, Failure>): Result<Tokens, Failure>
  {
    if r.Ok? then Ok(r.value.tokens) else Err(r.error)
  }

  /**
   * `generateTokens` for a user, from the ledger `before` to `after`: when
   * both signings succeed, one row for the user holding the refresh JWT's
   * hash is added, and the answer is the access JWT with the envelope of the
   * new row's id and the refresh JWT; when either signing throws, nothing
   * is saved.
   */
  predicate Issued(jwt: Jwt, before: seq<TokenRecord>, after: seq<TokenRecord>, userId: int, now: int, r: Result<Tokens, Failure>)
  {
    var access, refresh := jwt.sign(userId, jwt.access), jwt.sign(userId, jwt.refresh);
    if access.Some? && refresh.Some? then
      var record := TokenRecord(|before| + 1, Bcrypt.HashValue(refresh.value), false, now, None, userId);
      after == before + [record] &&
      r == Ok(Tokens(access.value, TokenEncoder.Encode(TokenEncoder.Envelope(record.id, refresh.value))))
    else
      after == before && r == Err(SigningFailed)
  }

  /**
   * The ledger key `refresh` reads from an envelope (`decoded.id`): a token
   * that does not decode, or whose `id` is missing or falsy, is an invalid
   * token; a truthy `id` that is not a number is refused by the database.
   */
  function EnvelopeId(token: string): (r: Result<int, Failure>)
    ensures r.Ok? <==> exists n :: n != 0 && Property(TokenEncoder.Decode(token), "id") == Some(Number(n))
    ensures r.Ok? ==> Property(TokenEncoder.Decode(token), "id") == Some(Number(r.value))
    ensures r.Err? ==> (r.error == InvalidToken <==> !Truthy(Property(TokenEncoder.Decode(token), "id")))
    ensures r.Err? ==> r.error == InvalidToken || r.error == QueryFailed
  {
    var id := Property(TokenEncoder.Decode(token), "id");
    if !Truthy(id) then Err(InvalidToken)
    else if id.value.Number? then Ok(id.value.n)
    else Err(QueryFailed)
  }

  /**
   * The key of an envelope whose `id` is a non-zero number that a key
   * column can hold; every other token is invalid.
   */
  function EnvelopeKey(token: string): (r: Result<int, Failure>)
    ensures r.Ok? <==> exists n :: n != 0 && IsInt4(n) && Property(TokenEncoder.Decode(token), "id") == Some(Number(n))
    ensures r.Ok? ==> Property(TokenEncoder.Decode(token), "id") == Some(Number(r.value)) && IsInt4(r.value)
    ensures r.Err? ==> r.error == InvalidToken
  {
    match EnvelopeId(token)
    case Ok(n) => if IsInt4(n) then Ok(n) else Err(InvalidToken)
    case Err(_) => Err(InvalidToken)
  }

  /** The credential check of `login`: the live user with that email, if the password matches their stored hash. */
  function Authenticate(users: seq<User>, email: string, password: string): (r: Option<User>)
    ensures r.Some? ==> r.value in users && r.value.email == email && Live(r.value) &&
                        Bcrypt.CompareValue(password, r.value.password)
  {
    var found := LiveWithEmail(users, email);
    if found.Some? && Bcrypt.CompareValue(password, found.value.password) then found else None
  }

  class Auth {

    const users: UserTable
    const ledger: Ledger
    const jwt: Jwt

    ghost predicate Valid()
      reads users, ledger
    {
      users.Valid() && ledger.Valid()
    }

    constructor(users: UserTable, ledger: Ledger, jwt: Jwt)
      ensures this.users == users && this.ledger == ledger && this.jwt == jwt
    {
      this.users := users;
      this.ledger := ledger;
      this.jwt := jwt;
    }

    /** `generateTokens`: signs both JWTs for the user, then records the refresh JWT in the ledger. */
    method GenerateTokens(userId: int, now: int) returns (r: Result<Tokens, Failure>)
      requires Valid()
      modifies ledger
      ensures Valid()
      ensures Issued(jwt, old(ledger.rows), ledger.rows, userId, now, r)
    {
      var access := jwt.sign(userId, jwt.access);
      var refresh := jwt.sign(userId, jwt.refresh);
      if access.None? || refresh.None? {
        return Err(SigningFailed);
      }
      var record := ledger.Create(userId, refresh.value, now);
      r := Ok(Tokens(access.value, TokenEncoder.Encode(TokenEncoder.Envelope(record.id, refresh.value))));
    }

    /**
     * `login`: an unknown email and a wrong password fail alike and save
     * nothing; otherwise tokens are issued for the user found.
     */
    method Login(data: UserService.Auth, now: int) returns (r: Result<Session, Failure>)
      requires Valid()
      modifies ledger
      ensures Valid()
      ensures var user := Authenticate(users.rows, data.email, data.password);
              (user.None? ==> r == Err(InvalidCredentials) && ledger.rows == old(ledger.rows)) &&
              (user.Some? ==> Issued(jwt, old(ledger.rows), ledger.rows, user.value.id, now, TokensOf(r)) &&
                              (r.Ok? ==> r.value.user == user.value))
    {
      var user := users.FindByEmail(data.email);
      if user.None? || !Bcrypt.CompareValue(data.password, user.value.password) {
        return Err(InvalidCredentials);
      }
      var tokens := GenerateTokens(user.value.id, now);
      r := if tokens.Ok? then Ok(Session(user.value, tokens.value)) else Err(tokens.error);
    }

    /**
     * `register`: an email a live user holds fails and saves nothing;
     * otherwise the user is created as given (the password is not hashed),
     * then tokens are issued for the new id. A failed signing leaves the
     * new user saved.
     */
    method Register(data: UserService.Auth, now: int) returns (r: Result<Session, Failure>)
      requires Valid()
      modifies users, ledger
      ensures Valid()
      ensures LiveWithEmail(old(users.rows), data.email).Some? ==>
                r == Err(EmailInUse) && users.rows == old(users.rows) && ledger.rows == old(ledger.rows)
      ensures LiveWithEmail(old(users.rows), data.email).None? ==>
                Registered(old(users.rows), users.rows, old(ledger.rows), ledger.rows, NewUser(|old(users.rows)| + 1, data), now, r)
    {
      var stored := users.FindByEmail(data.email);
      if stored.Some? {
        return Err(EmailInUse);
      }
      var created := users.Create(data);
      r := Enroll(created, now);
    }

    /** `register` with the password hashed before it is saved. */
    method RegisterHashed(data: UserService.Auth, now: int) returns (r: Result<Session, Failure>)
      requires Valid()
      modifies users, ledger
      ensures Valid()
      ensures LiveWithEmail(old(users.rows), data.email).Some? ==>
                r == Err(EmailInUse) && users.rows == old(users.rows) && ledger.rows == old(ledger.rows)
      ensures LiveWithEmail(old(users.rows), data.email).None? ==>
                Registered(old(users.rows), users.rows, old(ledger.rows), ledger.rows, NewUser(|old(users.rows)| + 1, Hashed(data)), now, r)
    {
      var stored := users.FindByEmail(data.email);
      if stored.Some? {
        return Err(EmailInUse);
      }
      var created := users.CreateHashed(data);
      r := Enroll(created, now);
    }

    /** The second half of `register`: tokens for a user just created, or the creation's failure. */
    method Enroll(created: Result<User, Failure>, now: int) returns (r: Result<Session, Failure>)
      requires Valid()
      modifies ledger
      ensures Valid()
      ensures created.Err? ==> r == Err(created.error) && ledger.rows == old(ledger.rows)
      ensures created.Ok? ==> Issued(jwt, old(ledger.rows), ledger.rows, created.value.id, now, TokensOf(r)) &&
                              (r.Ok? ==> r.value.user == created.value)
    {
      if created.Err? {
        return Err(created.error);
      }
      var tokens := GenerateTokens(created.value.id, now);
      r := if tokens.Ok? then Ok(Session(created.value, tokens.value)) else Err(tokens.error);
    }

    /** What a `register` past the email check does to both tables. */
    ghost predicate Registered(usersBefore: seq<User>, usersAfter: seq<User>,
                               ledgerBefore: seq<TokenRecord>, ledgerAfter: seq<TokenRecord>,
                               u: User, now: int, r: Result<Session, Failure>)
    {
      var c := Insert(usersBefore, u);
      (c.Err? ==> r == Err(c.error) && usersAfter == usersBefore && ledgerAfter == ledgerBefore) &&
      (c.Ok? ==> usersAfter == usersBefore + [u] &&
                 Issued(jwt, ledgerBefore, ledgerAfter, u.id, now, TokensOf(r)) &&
                 (r.Ok? ==> r.value.user == u))
    }

    /** `profile`: the live user with that id, the not-found error, or the database's error for an id out of range. */
    function Profile(userId: int): (r: Result<User, Failure>)
      requires Valid()
      reads users, ledger
      ensures r.Ok? <==> IsInt4(userId) && exists u :: u in users.rows && u.id == userId && Live(u)
      ensures r.Ok? ==> r.value in users.rows && r.value.id == userId
      ensures r.Err? ==> (r.error == QueryFailed <==> !IsInt4(userId))
      ensures r.Err? ==> r.error == NotFound || r.error == QueryFailed
    {
      users.FindOne(userId)
    }

    /**
     * `logout`: hands the envelope's `id`, whatever JSON value it is, to
     * `revoke` once it is truthy. The JWT inside is not looked at; a key
     * with no row revokes nothing without complaint, a key outside the key
     * column's range fails in the database, and an array or an object
     * selects rows as `update` reads it.
     */
    method Logout(token: string) returns (r: Result<(), Failure>)
      requires Valid()
      modifies ledger
      ensures Valid()
      ensures var id := Property(TokenEncoder.Decode(token), "id");
              (!Truthy(id) ==> r == Err(InvalidToken) && ledger.rows == old(ledger.rows)) &&
              (Truthy(id) && CriteriaOf(id.value).Err? ==> r == Err(QueryFailed) && ledger.rows == old(ledger.rows)) &&
              (Truthy(id) && CriteriaOf(id.value).Ok? && !InRange(CriteriaOf(id.value).value) ==>
                 r == Err(QueryFailed) && ledger.rows == old(ledger.rows)) &&
              (Truthy(id) && CriteriaOf(id.value).Ok? && InRange(CriteriaOf(id.value).value) ==>
                 r == Ok(()) && ledger.rows == RevokeWhere(old(ledger.rows), CriteriaOf(id.value).value))
    {
      var id := Property(TokenEncoder.Decode(token), "id");
      if !Truthy(id) {
        return Err(InvalidToken);
      }
      var criteria := CriteriaOf(id.value);
      if criteria.Err? {
        return Err(criteria.error);
      }
      var revoked := ledger.Revoke(criteria.value);
      r := if revoked.Ok? then Ok(()) else Err(revoked.error);
    }

    /**
     * `logout` as evidently intended: only an envelope whose `id` is a
     * non-zero number in the key column's range names a row, and that row
     * alone is revoked.
     */
    method LogoutNumeric(token: string) returns (r: Result<(), Failure>)
      requires Valid()
      modifies ledger
      ensures Valid()
      ensures var key := EnvelopeKey(token);
              (key.Err? ==> r == Err(InvalidToken) && ledger.rows == old(ledger.rows)) &&
              (key.Ok? ==> r == Ok(()) && ledger.rows == RevokeRow(old(ledger.rows), key.value))
    {
      var key := EnvelopeKey(token);
      if key.Err? {
        return Err(InvalidToken);
      }
      ghost var before := ledger.rows;
      var revoked := ledger.Revoke(Ids([key.value]));
      assert revoked.Ok?;
      RevokeWhereId(before, key.value);
      r := Ok(());
    }

    /**
     * `refresh`: looks up the row the envelope names. A missing row fails,
     * and so does a key outside the key column's range; a revoked row
     * revokes every row of `userId` and fails; any other row
     * is left as it is and tokens are issued for `userId`. The JWT inside
     * the envelope is neither verified nor compared with the row's hash,
     * and the row's owner is not compared with `userId`.
     */
    method Refresh(token: string, userId: int, now: int) returns (r: Result<Tokens, Failure>)
      requires Valid()
      modifies ledger
      ensures Valid()
      ensures var key := EnvelopeId(token);
              (key.Err? ==> r == Err(key.error) && ledger.rows == old(ledger.rows)) &&
              (key.Ok? ==> RefreshedRow(old(ledger.rows), ledger.rows, key.value, userId, now, r))
    {
      var key := EnvelopeId(token);
      if key.Err? {
        return Err(key.error);
      }
      var stored := ledger.FindOne(key.value);
      if stored.Err? {
        return Err(stored.error);
      }
      if stored.value.revoked {
        var revoked := ledger.RevokeAll(userId);
        return if revoked.Ok? then Err(TokenRevoked) else Err(revoked.error);
      }
      r := GenerateTokens(userId, now);
    }

    /** What `refresh` does once it has the ledger key. */
    ghost predicate RefreshedRow(before: seq<TokenRecord>, after: seq<TokenRecord>, key: int, userId: int, now: int, r: Result<Tokens, Failure>)
    {
      (!IsInt4(key) ==> r == Err(QueryFailed) && after == before) &&
      (IsInt4(key) && !(1 <= key <= |before|) ==> r == Err(NotFound) && after == before) &&
      (IsInt4(key) && 1 <= key <= |before| && before[key - 1].revoked ==>
         if IsInt4(userId) then r == Err(TokenRevoked) && after == RevokeUser(before, userId)
         else r == Err(QueryFailed) && after == before) &&
      (IsInt4(key) && 1 <= key <= |before| && !before[key - 1].revoked ==> Issued(jwt, before, after, userId, now, r))
    }
  }

  // ---------------------------------------------------------------------
  // Sessions across calls

  /**
   * The envelope handed out names the new row: decoding it gives that row's
   * id, and the row belongs to the user, is not revoked and holds the hash
   * of the refresh JWT the envelope carries.
   */
  lemma IssuedEnvelope(jwt: Jwt, before: seq<TokenRecord>, after: seq<TokenRecord>, userId: int, now: int, r: Result<Tokens, Failure>)
    requires Issued(jwt, before, after, userId, now, r) && r.Ok?
    ensures EnvelopeId(r.value.refreshToken) == Ok(|before| + 1)
    ensures |after| == |before| + 1 && after[..|before|] == before
    ensures var row := after[|before|];
            row.id == |before| + 1 && row.userId == userId && !row.revoked &&
            exists refresh :: Property(TokenEncoder.Decode(r.value.refreshToken), "refreshToken") == Some(String(refresh)) &&
                              row.token == Bcrypt.HashValue(refresh)
  {
    var refresh := jwt.sign(userId, jwt.refresh).value;
    var envelope := TokenEncoder.Encode(TokenEncoder.Envelope(|before| + 1, refresh));
    assert r.value.refreshToken == envelope;
    assert after == before + [after[|before|]];
    assert after[|before|].token == Bcrypt.HashValue(refresh);
    TokenEncoder.DecodeEnvelope(|before| + 1, refresh);
    EnvelopeIdOfEnvelope(|before| + 1, refresh);
    assert Property(TokenEncoder.Decode(envelope), "refreshToken") == Some(String(refresh));
    assert after[..|before|] == before;
  }

  /** An envelope for a row decodes to that row's key; for id 0, which is falsy, it is an invalid token. */
  lemma EnvelopeIdOfEnvelope(id: int, refresh: string)
    ensures EnvelopeId(TokenEncoder.Encode(TokenEncoder.Envelope(id, refresh))) ==
              if id == 0 then Err(InvalidToken) else Ok(id)
  {
    TokenEncoder.DecodeEnvelope(id, refresh);
  }

  /** A string that is not an encoding at all, such as one of the wrong length, is an invalid token. */
  lemma EnvelopeIdMalformed(token: string)
    requires TokenEncoder.Decode(token).None?
    ensures EnvelopeId(token) == Err(InvalidToken)
  {
  }

  /**
   * `refresh` takes any envelope that names a live row: one carrying an
   * arbitrary string in place of the refresh JWT opens the same row as the
   * genuine one.
   */
  lemma ForgedEnvelopeAccepted(id: int, genuine: string, forged: string)
    requires id != 0
    ensures EnvelopeId(TokenEncoder.Encode(TokenEncoder.Envelope(id, forged))) ==
            EnvelopeId(TokenEncoder.Encode(TokenEncoder.Envelope(id, genuine)))
  {
    EnvelopeIdOfEnvelope(id, forged);
    EnvelopeIdOfEnvelope(id, genuine);
  }

  /**
   * Rotation does not retire the old row: after a successful refresh the
   * row it was given is still there and still not revoked, so the same
   * envelope refreshes again.
   */
  lemma RotationKeepsOldRow(jwt: Jwt, before: seq<TokenRecord>, after: seq<TokenRecord>, key: int, userId: int, now: int, r: Result<Tokens, Failure>)
    requires Issued(jwt, before, after, userId, now, r)
    requires 1 <= key <= |before| && !before[key - 1].revoked
    ensures 1 <= key <= |after| && after[key - 1] == before[key - 1] && !after[key - 1].revoked
  {
  }

  /**
   * After reuse is detected, every row of the user is revoked, so each of
   * their envelopes now fails the same way, and no other user's row changed.
   */
  lemma ReuseLocksUser(before: seq<TokenRecord>, userId: int)
    requires TokenService.Serial(before)
    ensures var after := RevokeUser(before, userId);
            |after| == |before| &&
            (forall i :: 0 <= i < |after| && after[i].userId == userId ==> after[i].revoked) &&
            (forall i :: 0 <= i < |after| && after[i].userId != userId ==> after[i] == before[i])
  {
    RevokeUserEffect(before, userId);
  }

  /**
   * Logging out with an envelope from `generateTokens` revokes the row it
   * issued and nothing else, with the numeric logout and, since the `id` is
   * a number, with the logout as written too. The new row's key fits the
   * key column as long as the table has a key left for it.
   */
  lemma LogoutIssued(jwt: Jwt, before: seq<TokenRecord>, after: seq<TokenRecord>, userId: int, now: int, r: Result<Tokens, Failure>)
    requires Issued(jwt, before, after, userId, now, r) && r.Ok? && TokenService.Serial(before)
    requires |before| < Int4Max
    ensures EnvelopeKey(r.value.refreshToken) == Ok(|after|)
    ensures var id := Property(TokenEncoder.Decode(r.value.refreshToken), "id");
            Truthy(id) && CriteriaOf(id.value) == Ok(Ids([|after|])) && InRange(Ids([|after|]))
    ensures RevokeWhere(after, Ids([|after|])) == RevokeRow(after, |after|)
    ensures var out := RevokeRow(after, |after|);
            out[..|before|] == before && out[|before|] == after[|before|].(revoked := true)
  {
    IssuedEnvelope(jwt, before, after, userId, now, r);
    LogoutAppended(r.value.refreshToken, before, after);
  }

  /** Logging out with an envelope that names the row just appended. */
  lemma LogoutAppended(token: string, before: seq<TokenRecord>, after: seq<TokenRecord>)
    requires TokenService.Serial(before) && EnvelopeId(token) == Ok(|after|)
    requires |after| == |before| + 1 && after[..|before|] == before && after[|before|].id == |after|
    requires |after| <= Int4Max
    ensures EnvelopeKey(token) == Ok(|after|)
    ensures var id := Property(TokenEncoder.Decode(token), "id");
            Truthy(id) && CriteriaOf(id.value) == Ok(Ids([|after|])) && InRange(Ids([|after|]))
    ensures RevokeWhere(after, Ids([|after|])) == RevokeRow(after, |after|)
    ensures var out := RevokeRow(after, |after|);
            out[..|before|] == before && out[|before|] == after[|before|].(revoked := true)
  {
    assert TokenService.Serial(after) by {
      assert after == before + [after[|before|]];
    }
    RevokeWhereId(after, |after|);
    RevokeLastRow(before, after);
  }

  /** Revoking the last row of a table leaves the rows before it as they were. */
  lemma RevokeLastRow(before: seq<TokenRecord>, after: seq<TokenRecord>)
    requires |after| == |before| + 1 && after[..|before|] == before
    ensures var out := RevokeRow(after, |after|);
            out[..|before|] == before && out[|before|] == after[|before|].(revoked := true)
  {
    var out := RevokeRow(after, |after|);
    assert forall i :: 0 <= i < |before| ==> out[i] == after[i];
  }

  // ---------------------------------------------------------------------
  // Envelopes a client can write for itself

  /** The Base64 of `{"id": id}`, which anyone can compute without the server. */
  function Forged(id: Value): (token: string)
    ensures Property(TokenEncoder.Decode(token), "id") == Some(id)
  {
    TokenEncoder.DecodeEncode(Object([Member("id", id)]));
    TokenEncoder.Encode(Object([Member("id", id)]))
  }

  /**
   * As written, `logout` takes the envelope `{"id": {"revoked": false}}` as
   * a condition: every row of the table ends up revoked, whoever owns it,
   * so one request signs every user out.
   */
  lemma LogoutForgedRevokesAll(rows: seq<TokenRecord>, condition: Value)
    requires condition == Object([Member("revoked", Bool(false))])
    ensures var id := Property(TokenEncoder.Decode(Forged(condition)), "id");
            Truthy(id) && CriteriaOf(id.value).Ok? && InRange(CriteriaOf(id.value).value) &&
            forall i :: 0 <= i < |rows| ==> RevokeWhere(rows, CriteriaOf(id.value).value)[i].revoked
  {
    UnrevokedCondition(condition);
    RevokeUnrevoked(rows);
  }

  /** Revoking the rows not yet revoked leaves every row revoked. */
  lemma RevokeUnrevoked(rows: seq<TokenRecord>)
    ensures forall i :: 0 <= i < |rows| ==> RevokeWhere(rows, Where(None, None, Some(false), None))[i].revoked
  {
    var c := Where(None, None, Some(false), None);
    forall i | 0 <= i < |rows|
      ensures RevokeWhere(rows, c)[i].revoked
    {
      if !rows[i].revoked {
        SelectedRevoked(rows, c, i);
      }
    }
  }

  /** `{"revoked": false}` reads as the condition on the flag alone. */
  lemma UnrevokedCondition(condition: Value)
    requires condition == Object([Member("revoked", Bool(false))])
    ensures CriteriaOf(condition) == Ok(Where(None, None, Some(false), None))
  {
    var ms := condition.members;
    assert ms[0].key != "id" && ms[0].key != "token" && ms[0].key != "user" by {
      assert |ms[0].key| == 7;
    }
    assert Lookup(ms, "revoked") == Some(Bool(false));
    assert Lookup(ms, "id") == None && Lookup(ms, "token") == None && Lookup(ms, "user") == None;
  }

  /** A row the criteria select is revoked afterwards. */
  lemma SelectedRevoked(rows: seq<TokenRecord>, c: Criteria, i: int)
    requires 0 <= i < |rows| && Selects(c, rows[i])
    ensures RevokeWhere(rows, c)[i].revoked
  {
  }

  /**
   * As written, `logout` takes the envelope `{"id": {"user": {"id": victim}}}`
   * as a condition: it revokes every row of the victim, as reuse detection
   * would, without holding any of their tokens.
   */
  lemma LogoutForgedRevokesOwner(rows: seq<TokenRecord>, victim: int, condition: Value)
    requires condition == Object([Member("user", Object([Member("id", Number(victim))]))])
    ensures var id := Property(TokenEncoder.Decode(Forged(condition)), "id");
            Truthy(id) && CriteriaOf(id.value).Ok? &&
            (InRange(CriteriaOf(id.value).value) <==> IsInt4(victim)) &&
            RevokeWhere(rows, CriteriaOf(id.value).value) == RevokeUser(rows, victim)
  {
    var owner := [Member("id", Number(victim))];
    var ms := condition.members;
    assert ms == [Member("user", Object(owner))];
    assert ms[0].key != "id" && ms[0].key != "token" && ms[0].key != "revoked" by {
      assert |ms[0].key| == 4 && ms[0].key[0] == 'u';
    }
    assert Lookup(ms, "user") == Some(Object(owner));
    assert Lookup(owner, "id") == Some(Number(victim));
    assert Lookup(ms, "id") == None && Lookup(ms, "token") == None && Lookup(ms, "revoked") == None;
    assert CriteriaOf(condition) == Ok(ByUser(victim));
    RevokeWhereByUser(rows, victim);
  }

  /** As written, `logout` takes `{"id": [a, b]}` as two keys and revokes both rows, whoever owns them. */
  lemma LogoutForgedRevokesKeys(rows: seq<TokenRecord>, a: int, b: int, keys: Value)
    requires TokenService.Serial(rows) && 1 <= a <= |rows| && 1 <= b <= |rows|
    requires keys == Array([Number(a), Number(b)])
    ensures var id := Property(TokenEncoder.Decode(Forged(keys)), "id");
            Truthy(id) && CriteriaOf(id.value).Ok? &&
            (InRange(CriteriaOf(id.value).value) <==> a <= Int4Max && b <= Int4Max) &&
            RevokeWhere(rows, CriteriaOf(id.value).value)[a - 1].revoked &&
            RevokeWhere(rows, CriteriaOf(id.value).value)[b - 1].revoked
  {
    var items := keys.items;
    var c := CriteriaOf(keys);
    assert c.Ok? by {
      assert forall i :: 0 <= i < |items| ==> items[i].Number?;
    }
    assert Number(rows[a - 1].id) in items && Number(rows[b - 1].id) in items by {
      assert Number(rows[a - 1].id) == items[0] && Number(rows[b - 1].id) == items[1];
    }
    SelectedRevoked(rows, c.value, a - 1);
    SelectedRevoked(rows, c.value, b - 1);
  }

  /**
   * An envelope whose `id` is a number outside the key column's range, such
   * as 2147483648: `logout` as written hands it to `update`, which the
   * database refuses, and the numeric logout refuses it as invalid.
   */
  lemma OutOfRangeKeyRefused(n: int)
    requires !IsInt4(n)
    ensures var id := Property(TokenEncoder.Decode(Forged(Number(n))), "id");
            Truthy(id) && CriteriaOf(id.value) == Ok(Ids([n])) && !InRange(Ids([n]))
    ensures EnvelopeKey(Forged(Number(n))) == Err(InvalidToken)
    ensures EnvelopeId(Forged(Number(n))) == Ok(n)
  {
    assert !IsInt4([n][0]);
  }

  /** The numeric logout refuses every envelope whose `id` is not a number. */
  lemma LogoutNumericRefusesForged(id: Value)
    requires !id.Number?
    ensures EnvelopeKey(Forged(id)) == Err(InvalidToken)
  {
  }

  // ---------------------------------------------------------------------
  // Registering and then logging in

  /** With emails unique, the credential check fails only when no live user with that email has that password. */
  lemma AuthenticateComplete(users: seq<User>, email: string, password: string)
    requires UniqueEmails(users)
    ensures Authenticate(users, email, password).Some? <==>
              exists u :: u in users && u.email == email && Live(u) && Bcrypt.CompareValue(password, u.password)
  {
    var found := LiveWithEmail(users, email);
    if u :| u in users && u.email == email && Live(u) && Bcrypt.CompareValue(password, u.password) {
      assert found.Some?;
      EmailNamesOneRow(users, u, found.value);
    }
  }

  /**
   * As written, `register` stores the password as typed, and `login`
   * compares it with bcrypt: a password that does not itself begin with a
   * bcrypt hash prefix never matches, so the new user cannot log in.
   */
  lemma RegisteredCannotLogin(users: seq<User>, data: UserService.Auth)
    requires Consistent(users)
    requires Insert(users, NewUser(|users| + 1, data)).Ok?
    requires |data.password| < |Bcrypt.Prefix| || data.password[..|Bcrypt.Prefix|] != Bcrypt.Prefix
    ensures Authenticate(users + [NewUser(|users| + 1, data)], data.email, data.password).None?
  {
    var u := NewUser(|users| + 1, data);
    FindCreated(users, data);
    Bcrypt.CompareUnhashed(data.password, u.password);
  }

  /** For instance the password "secret12". */
  lemma RegisteredCannotLoginExample(users: seq<User>)
    requires Consistent(users)
    requires Insert(users, NewUser(|users| + 1, UserService.Auth("ann@example.com", "ann", "555", "secret12"))).Ok?
    ensures Authenticate(users + [NewUser(|users| + 1, UserService.Auth("ann@example.com", "ann", "555", "secret12"))],
                         "ann@example.com", "secret12").None?
  {
    assert "secret12"[..|Bcrypt.Prefix|][0] != Bcrypt.Prefix[0];
    RegisteredCannotLogin(users, UserService.Auth("ann@example.com", "ann", "555", "secret12"));
  }

  /** With the password hashed on the way in, the new user logs in with the password they registered. */
  lemma RegisteredHashedCanLogin(users: seq<User>, data: UserService.Auth)
    requires Consistent(users)
    requires Insert(users, NewUser(|users| + 1, Hashed(data))).Ok?
    ensures Authenticate(users + [NewUser(|users| + 1, Hashed(data))], data.email, data.password) ==
              Some(NewUser(|users| + 1, Hashed(data)))
  {
    FindCreated(users, Hashed(data));
  }
}
