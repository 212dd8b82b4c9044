# Session lifecycle of an Express/TypeORM API, in Dafny

This project models the authentication core of a TypeScript web API and
proves properties of the model. The API signs users in with an email and a
bcrypt-checked password. It hands out a short-lived access JWT and a
refresh token, and keeps a ledger of issued refresh tokens in which rows
can be revoked. The refresh token the client receives is an *envelope*:
the object `{id, refreshToken}` written as JSON, encoded as UTF-8 and then
as padded Base64. `id` names the ledger row.

- `AuthService.Auth` (auth_service.dfy) is the service of
  `src/services/auth.ts`: `login`, `register`, `profile`, `logout`,
  `refresh` and the private `generateTokens`. It is a class holding the user
  table, the ledger and the JWT configuration. Its methods change the two
  tables in place, and each method's `ensures` states the new state of both.
- `TokenService.Ledger` (token_service.dfy) is the token table of
  `src/services/token.ts`. The rows are a sequence numbered by the serial
  key. `create` appends a row; `revoke` and `revokeAll` set flags in place
  by a loop over the rows, marking the rows TypeORM's `update` selects.
  `update` reads its first argument as primary keys (a number, or an array
  of numbers) or as a condition on columns (an object), and the model
  keeps that distinction: `logout` passes it whatever JSON value the
  envelope's `id` holds.
- `UserService.UserTable` (user_service.dfy) is the user table of
  `src/services/user.ts`. It enforces the database's constraints: one email
  per row over all rows, soft-deleted ones included, and the varchar column
  lengths. `delete` only stamps `deletedAt`, and every read leaves stamped
  rows out.
- `TokenEncoder` (token_encoder.dfy) is `tokenEncoder`/`tokenDecoder`.
  It is built on `Base64` (RFC 4648 section 4, padded), `Utf8` and `Json`,
  each with its own round-trip proofs.
- `Bcrypt` (bcrypt.dfy) stands in for `hashValue`/`compareValue`.
- `Pagination` (pagination.dfy) is the `pagination` query schema and the
  `skip`/`take`/`ceil(total / limit)` arithmetic both services apply.
- `VerifyToken` (verify_token.dfy) and `Cors` (cors.dfy) are the two
  middlewares. They work on the `Request`/`Response` classes of http.dfy,
  with string helpers in strings.dfy. Each middleware reports whether it
  called `next`.

The facts the model makes explicit about `refresh`
(src/services/auth.ts:83-94):

- it never verifies the JWT inside the envelope;
- it never compares that JWT with the hash stored in the row;
- it never checks that the row belongs to `userId`;
- it leaves the presented row unrevoked when it issues new tokens.

Success therefore depends only on the envelope naming an existing, unrevoked
row. The same envelope can be refreshed again and again until it is logged
out. Nothing in the code says whether rotation is meant to retire the old
row, so the model follows the code and proves the consequence
(`AuthService.RotationKeepsOldRow`).

The token table has a `revokedAt` column (src/models/token.ts:16-17), but
`revoke` sets only the `revoked` flag (src/services/token.ts:79). The model
follows the code: `revokedAt` and `expiresAt` are stored and never changed.

Every serial key is a PostgreSQL `integer` (src/models/base.ts:13-14). The
envelope is not signed, so a client can put any number in it. A key outside
-2147483648..2147483647 makes the database refuse the query ("value out of
range for type integer"). The model's key lookups, `update`s and
`softDelete` answer QueryFailed for such a key (`Errors.IsInt4`).

## Model

| member | source | states |
|---|---|---|
| TokenEncoder.Encode | src/helpers/tokenEncoder.ts:11-12 | the envelope text is `4 * ceil(n / 3)` characters for `n` UTF-8 bytes of JSON, all from the padded Base64 alphabet |
| TokenEncoder.Envelope | src/services/auth.ts:112-113 | the object handed to `tokenEncoder` reads back, as `decoded.id` and `decoded.refreshToken`, the new row's id and the refresh JWT |
| TokenEncoder.Decode | src/helpers/tokenEncoder.ts:22-29 | the model's strict decoder accepts only a non-empty string whose length is a multiple of four; what it accepts is any JSON value, of whatever shape (DecodeAccepts, DecodeEncode) |
| TokenEncoder.DecodeEncode | test/helpers/tokenEncoder.spec.ts:12-17 | decoding an encoded value gives back exactly that value, for every JSON value |
| TokenEncoder.DecodeEnvelope | src/helpers/tokenEncoder.ts:11-29 | an encoded `{id, refreshToken}` decodes to an object whose `id` and `refreshToken` are the ones put in |
| TokenEncoder.DecodeNotJson | src/helpers/tokenEncoder.ts:24-28 | well-formed Base64 of well-formed UTF-8 that is not JSON decodes to null rather than an error |
| TokenEncoder.DecodeAccepts | src/helpers/tokenEncoder.ts:22-26 | whatever the decoder accepts is the Base64 of the UTF-8 of some JSON text, and the result is that text's value whatever its shape |
| TokenEncoder.EncodeLonger | test/helpers/tokenEncoder.spec.ts:5-10 | the encoding is always longer than the JSON text, so never equal to it |
| TokenEncoder.DecodeBadLength | src/helpers/tokenEncoder.ts:22-29 | with the model's strict decoder, a string whose length is not a multiple of four decodes to null |
| TokenEncoder.DecodeMalformedExample | test/helpers/tokenEncoder.spec.ts:19-23 | "invalid_base64_string" decodes to null |
| Base64.Encode | src/helpers/tokenEncoder.ts:12 | padded Base64 has length `4 * ceil(n / 3)` and uses only alphabet and padding symbols |
| Base64.DecodeEncode | src/helpers/tokenEncoder.ts:23 | decoding the encoding of any bytes gives those bytes |
| Base64.EncodeDecode | src/helpers/tokenEncoder.ts:23 | every string the model's strict decoder accepts is the canonical encoding of what it decodes to |
| Base64.DecodeIffEncode | src/helpers/tokenEncoder.ts:12-23 | a string decodes to some bytes exactly when it is their encoding |
| Base64.EncodeInjective | src/helpers/tokenEncoder.ts:12 | different byte strings have different encodings |
| Base64.DecodeLength | src/helpers/tokenEncoder.ts:23 | the model's strict decoder accepts only strings whose length is a multiple of four |
| Utf8.Encode | src/helpers/tokenEncoder.ts:12 | a text of `n` characters takes between `n` and `4n` bytes |
| Utf8.DecodeEncode | src/helpers/tokenEncoder.ts:23 | decoding the UTF-8 of any text gives that text |
| Utf8.EncodeDecode | src/helpers/tokenEncoder.ts:23 | every byte string the decoder accepts is the encoding of what it decodes to |
| Utf8.EncodeInjective | src/helpers/tokenEncoder.ts:12 | different texts have different encodings |
| Utf8.EncodeAscii | src/helpers/tokenEncoder.ts:12 | a text of characters below U+0080 is encoded one byte per character, each byte being the code point |
| Utf8.EncodeAppend | src/helpers/tokenEncoder.ts:12 | the encoding of a concatenation is the concatenation of the encodings |
| Json.ParseStringify | src/helpers/tokenEncoder.ts:12-25 | `JSON.parse(JSON.stringify(v))` is `v` for every value |
| Json.Parse | src/helpers/tokenEncoder.ts:25 | `JSON.parse` succeeds only on a text holding something other than whitespace (ParseStringify gives its round trip) |
| Json.Lookup | src/services/auth.ts:72 | a property read finds a member with that key exactly when one exists, and the last such member wins |
| Json.Property | src/services/auth.ts:72 | `decoded?.id` is defined exactly when the decoded value is an object with a member of that key, and is then that member's value |
| Json.Truthy | src/services/auth.ts:72 | a value is truthy exactly when it is not undefined, null, false, 0 or "" |
| Bcrypt.Significant | src/libs/bcrypt.ts:12-13 | the part of a value the hash depends on is the first 72 bytes of its UTF-8 encoding |
| Bcrypt.HashValue | src/libs/bcrypt.ts:12-13 | every hash starts with the version and the cost of 12 rounds, "$2b$12$" |
| Bcrypt.CompareOwnHash | test/libs/bcrypt.spec.ts:5-11 | a value matches its own hash |
| Bcrypt.CompareIff | src/libs/bcrypt.ts:24-25 | a value matches another's hash exactly when their first 72 UTF-8 bytes agree |
| Bcrypt.CompareShort | src/libs/bcrypt.ts:24-25 | for values of at most 72 bytes, a match means the values are equal |
| Bcrypt.CompareLong | src/libs/bcrypt.ts:24-25 | values agreeing on their first 72 bytes match each other's hashes |
| Bcrypt.CompareUnhashed | src/libs/bcrypt.ts:24-25 | a stored string without the hash prefix matches no value |
| Pagination.PageIssues | src/schemas/pagination.ts:5 | a page passes exactly when it is an integer from 1 to 2^53 - 1; a fraction fails the integer check alone, and an integer outside the safe range fails the safe-integer check, then `min(1)` if below 1 |
| Pagination.LimitIssues | src/schemas/pagination.ts:6 | a limit passes exactly when it is an integer from 1 to 100; a fraction fails the integer check alone; an integer fails each of the safe-range, `min(1)` and `max(100)` checks it breaks |
| Pagination.Parse | src/schemas/pagination.ts:3-12 | the query is accepted exactly when both present fields pass (page an integer from 1 to 2^53 - 1, limit one from 1 to 100); missing fields take 1 and 10; a rejection lists at least one issue, and a fractional field reports only its integer issue |
| Pagination.ParseValid | src/schemas/pagination.ts:8-12 | every accepted query has `1 <= page <= 2^53 - 1`, `1 <= limit <= 100` and `offset = (page - 1) * limit` |
| Pagination.OffsetOfPage | src/schemas/pagination.ts:11 | the offset is non-negative, a whole number of pages, and gives the page back |
| Pagination.ParseDefaults | src/schemas/pagination.ts:5-6 | no fields give page 1, limit 10, offset 0 |
| Pagination.ParseSecondPage | src/schemas/pagination.ts:8-12 | page 2 with limit 20 gives offset 20 |
| Pagination.ParseRejects | src/schemas/pagination.ts:5-6 | page 0, page 1.5, page 2^53, limit 200 and limit 0.5 are rejected, each with exactly the issues the schema reports (limit 0.5 only the integer issue) |
| Pagination.PageCount | src/services/token.ts:37 | `ceil(total / limit)`: enough pages for every row, and the last page is not empty |
| Pagination.PageCountLeast | src/services/token.ts:37 | no smaller page count holds every row |
| Pagination.Window | src/services/token.ts:29-30 | `skip`/`take`: at most `limit` rows, those at `offset`, `offset + 1`, ... of the listing |
| Pagination.Paginate | src/services/token.ts:21-39 | a listing with page, limit and offset defaulting to 1, 10 and 0 independently, its rows, its total and its page count |
| Pagination.PageWithinCount | src/schemas/pagination.ts:11 | a page's offset falls inside the listing exactly when the page is within the page count |
| TokenService.OwnedBy | src/services/token.ts:28 | a user's rows are exactly the rows whose owner is that user |
| TokenService.Ledger.Create | src/services/token.ts:63-71 | the new row has the next serial id, the hash of the raw token, `revoked = false`, and the given owner; it is appended and returned |
| TokenService.Ledger.FindOne | src/services/token.ts:47-55 | the row with that id; an id outside PostgreSQL's `integer` range (the serial key's type) is QueryFailed, and an id in range with no row is NotFound |
| TokenService.CriteriaOf | src/services/token.ts:79 | `update` reads a number as that primary key and a non-empty array of numbers as the keys it lists, so a row is selected exactly when its id is among them; an object is a condition a row meets column by column; any other value fails in the query; keys are passed as given, and `Ledger.Revoke` refuses those outside the `integer` range |
| TokenService.WhereOf | src/services/token.ts:79 | an object condition may name only `id`, `token`, `revoked` and `user`, and a row is selected exactly when it holds every value named, the owner by `user.id`; values of another JSON type and an empty `user` are modelled as failed queries (see Left out) |
| TokenService.ByUser | src/services/token.ts:88-91 | `{user: {id: userId}}` selects exactly the user's rows |
| TokenService.Ledger.Revoke | src/services/token.ts:78-80 | criteria naming a key outside the `integer` range (an id, or the owner's `user.id`) fail with QueryFailed and change nothing; otherwise, after the loop, the rows are the old ones with every row the criteria select revoked, and selecting nothing changes nothing and is no error |
| TokenService.Ledger.RevokeAll | src/services/token.ts:87-92 | a user id outside the `integer` range is QueryFailed with nothing changed; otherwise the rows are the old ones with every row of the user revoked |
| TokenService.Ledger.FindAll | src/services/token.ts:21-39 | the listing is the page of the user's rows (listed by id, see Left out): each listed row is the user's, and the total is the number of the user's rows |
| TokenService.RevokeWhereId | src/services/token.ts:79 | updating by one primary key revokes the row with that id and nothing else |
| TokenService.RevokeWhereByUser | src/services/token.ts:88-91 | updating by the owner condition revokes exactly the user's rows |
| TokenService.RevokeWhereEffect | src/services/token.ts:79 | any update of the flag keeps the ids, revokes the selected rows, leaves every other row as it was and never un-revokes |
| TokenService.CreateKeepsSerial | src/models/base.ts:13-14 | appending the next id keeps ids serial and changes no earlier row |
| TokenService.RevokeRowEffect | src/services/token.ts:78-80 | revoking changes only the `revoked` flag of the row with that id |
| TokenService.RevokeRowIdempotent | src/services/token.ts:78-80 | revoking twice is revoking once |
| TokenService.RevokeRowKept | src/services/token.ts:78-80 | revoking never un-revokes a row or changes another field |
| TokenService.RevokeUserEffect | src/services/token.ts:87-92 | every row of the user ends revoked, other users' rows are unchanged, and no row is un-revoked |
| TokenService.RevokeUserIdempotent | src/services/token.ts:87-92 | revoking a user's rows twice is doing it once |
| TokenService.RevocationKeptTransitive | src/services/token.ts:63-92 | revocation stays monotonic across any sequence of ledger updates |
| TokenService.OwnedByAppend | src/services/token.ts:63-71 | a new row joins the end of its owner's listing and no other listing |
| UserService.Insert | src/models/user.ts:8-18 | an insert fails with ValueTooLong exactly when a value exceeds its column, with UniqueViolation exactly when the email is already held by any row, and otherwise saves the row unchanged |
| UserService.Patched | src/services/user.ts:87-88 | an update writes each field present in the patch and keeps every other field |
| UserService.LiveWithEmail | src/services/user.ts:61-69 | finds a live user with that email, or answers null only when every row with that email is deleted |
| UserService.NewestFirst | src/services/user.ts:24-28 | the listing holds exactly the live users |
| UserService.Hashed | src/services/user.ts:76-79 | the corrected registration data keeps every field and stores a hash the password matches |
| UserService.UserTable.FindAll | src/services/user.ts:20-37 | the listing is the page of the live users newest first (NewestFirstOrdered): every listed user is live, and the total is the number of live users |
| UserService.UserTable.FindOne | src/services/user.ts:45-53 | the live user with that id; an id outside the `integer` range is QueryFailed, and an id in range with no live user is NotFound |
| UserService.UserTable.FindByEmail | src/services/user.ts:61-69 | a user is found exactly when a live user has that email; absence is null, not an error |
| UserService.UserTable.Create | src/services/user.ts:76-79 | the new row is the registration data as given, with the next id and no points; the table changes only on success |
| UserService.UserTable.CreateHashed | src/services/user.ts:76-79 | the corrected create: the same, with the password stored as its hash |
| UserService.UserTable.Save | src/services/user.ts:77-78 | the loop's answer is the insert outcome, and the table keeps unique emails and column limits |
| UserService.UserTable.Update | src/services/user.ts:87-90 | an id outside the `integer` range is QueryFailed with nothing written; otherwise the patch is written over the row even if it is deleted, unless a constraint fails, and the answer is the re-read live row or NotFound |
| UserService.UserTable.Delete | src/services/user.ts:97-100 | an id outside the `integer` range makes `softDelete` fail with nothing changed; otherwise answers true exactly when the id exists, and stamps only that row deleted |
| UserService.FindCreated | src/services/user.ts:76-79 | a user just created is the one `findByEmail` finds by its email |
| UserService.EmailNamesOneRow | src/models/user.ts:14-15 | no two rows hold the same email |
| UserService.DeletedInvisible | src/services/user.ts:97-100 | a soft-deleted user is no longer found by email but still holds the email |
| UserService.NewestFirstOrdered | src/services/user.ts:28 | the listing runs from the last created user to the first |
| AuthService.EnvelopeId | src/services/auth.ts:84-87 | the key `refresh` looks up is the envelope's numeric `id`; undecodable, missing or falsy ids are InvalidToken, other truthy ids fail in the database |
| AuthService.EnvelopeKey | src/services/auth.ts:71-72 | the corrected logout's key: a non-zero numeric `id` within the `integer` range, and every other token is InvalidToken |
| AuthService.Authenticate | src/services/auth.ts:36-38 | a user passes only if live, with that email, and matching the password |
| AuthService.AuthenticateComplete | src/services/auth.ts:36-38 | with unique emails, the check passes exactly when some live user with that email matches the password |
| AuthService.Auth.GenerateTokens | src/services/auth.ts:101-113 | either both signings succeed, one row for the user holding the refresh JWT's hash is added and the envelope names it, or nothing is saved |
| AuthService.Auth.Login | src/services/auth.ts:35-41 | unknown email and wrong password fail alike with no row added; otherwise one row for the found user and that user returned |
| AuthService.Auth.Register | src/services/auth.ts:48-54 | a live user's email fails with both tables unchanged; otherwise the create outcome, then one row for the new user |
| AuthService.Auth.RegisterHashed | src/services/auth.ts:48-54 | the corrected register: the same, with the hashed create |
| AuthService.Auth.Enroll | src/services/auth.ts:52-53 | a failed create is passed on with no row added; a created user gets one row |
| AuthService.Auth.Profile | src/services/auth.ts:61-63 | the live user with that id; NotFound when there is none, QueryFailed for an id outside the `integer` range |
| AuthService.Auth.Logout | src/services/auth.ts:70-75 | a falsy or missing `id` is InvalidToken and a value `update` cannot read and criteria naming a key outside the `integer` range fail with QueryFailed, all with the ledger unchanged; otherwise every row the `id` selects as `update` criteria is revoked, silently none; conditions the database would convert are modelled as failed queries (see Left out) |
| AuthService.Auth.LogoutNumeric | src/services/auth.ts:70-75 | the corrected logout: only a non-zero numeric `id` within the `integer` range is accepted, and exactly that row is revoked, silently if there is none |
| AuthService.Auth.Refresh | src/services/auth.ts:83-94 | a bad envelope or missing row fails with no change, and a key outside the `integer` range is QueryFailed; a revoked row revokes all of `userId`'s rows and fails (QueryFailed, with no change, when `userId` is outside the range); any other row issues tokens for `userId`, whatever the JWT and the row's owner; the insert of the new row does not check `userId` (see TokenService.Ledger.Create under Left out) |
| AuthService.IssuedEnvelope | src/services/auth.ts:111-112 | the envelope handed out decodes to the new row's id, and that row is the user's, unrevoked, and holds the hash of the envelope's JWT |
| AuthService.EnvelopeIdOfEnvelope | src/services/auth.ts:72 | an envelope's key is its id, except id 0, which is falsy and so an invalid token |
| AuthService.EnvelopeIdMalformed | src/services/auth.ts:71-72 | a token that does not decode is an invalid token |
| AuthService.ForgedEnvelopeAccepted | src/services/auth.ts:84-87 | an envelope with an arbitrary string in place of the JWT names the same row as the genuine one |
| AuthService.RotationKeepsOldRow | src/services/auth.ts:87-93 | after a successful refresh the presented row is unchanged and unrevoked, so the envelope refreshes again |
| AuthService.ReuseLocksUser | src/services/auth.ts:88-91 | after reuse is detected every row of the user is revoked and other users' rows are unchanged |
| AuthService.LogoutIssued | src/services/auth.ts:70-75 | logging out with a freshly issued envelope revokes the row just issued and nothing else, with the logout as written and with the numeric one; its key is within the `integer` range while the table has a key left |
| AuthService.LogoutAppended | src/services/auth.ts:70-75 | an envelope naming the row just appended is a valid key for both logouts and revokes that row alone |
| AuthService.Forged | src/helpers/tokenEncoder.ts:11-12 | the Base64 of `{"id": v}`, which a client can compute without the server, decodes to the `id` v |
| AuthService.LogoutForgedRevokesAll | src/services/auth.ts:71-74 | as written, the envelope `{"id": {"revoked": false}}` is a condition, with no key to range-check, under which every row of the table ends revoked |
| AuthService.LogoutForgedRevokesOwner | src/services/auth.ts:71-74 | as written, the envelope `{"id": {"user": {"id": victim}}}` revokes every row of the victim, as `revokeAll` would, for any victim id in the `integer` range |
| AuthService.LogoutForgedRevokesKeys | src/services/auth.ts:71-74 | as written, the envelope `{"id": [a, b]}` revokes rows a and b, whoever owns them, whenever both keys are in the `integer` range |
| AuthService.OutOfRangeKeyRefused | src/services/token.ts:78-80 | an envelope whose `id` is a number outside the `integer` range, such as 2147483648, passes the truthiness check and reaches `update` as a key the database refuses; `refresh` reads it as its key and its lookup fails; the corrected logout refuses it as invalid |
| AuthService.LogoutNumericRefusesForged | src/services/auth.ts:71-72 | the corrected logout refuses every envelope whose `id` is not a number |
| AuthService.RegisteredCannotLogin | src/services/user.ts:76-79 | as written, a user registered with a plain password never passes the login check |
| AuthService.RegisteredCannotLoginExample | src/services/user.ts:76-79 | the same for the password "secret12" |
| AuthService.RegisteredHashedCanLogin | src/services/auth.ts:36-38 | with the hashed create, the new user passes the login check with the password they registered |
| Strings.Split | src/middlewares/verifyToken.ts:27 | `split(' ')` gives at least one piece and no piece contains the separator |
| Strings.SplitWhole | src/middlewares/verifyToken.ts:27 | a string without the separator splits into itself alone |
| Strings.SplitAfter | src/middlewares/verifyToken.ts:27 | a separator-free piece followed by the separator splits off as the first piece |
| Strings.JoinSplit | src/middlewares/verifyToken.ts:27 | joining the pieces with the separator gives back the string |
| Strings.SplitJoin | src/middlewares/verifyToken.ts:27 | splitting the join of separator-free pieces gives back the pieces |
| Strings.Upper | src/middlewares/cors.ts:46 | upper-casing keeps the length and maps each character |
| Strings.UpperKeeps | src/middlewares/cors.ts:46 | a string with no lower-case letter is left as it is |
| Strings.UpperIdempotent | src/middlewares/cors.ts:46 | upper-casing twice is upper-casing once |
| Http.Response.Header | src/middlewares/cors.ts:43 | `res.header` sets one header, replacing an earlier value, and touches nothing else |
| Http.Response.Reply | src/middlewares/verifyToken.ts:44-47 | `res.status(code).json(body)` sets the status and body and sends the answer, keeping the headers the middlewares set (see Left out) |
| Http.Response.SendStatus | src/middlewares/cors.ts:97 | `res.sendStatus(code)` sets the status and sends the answer, keeping the body and the headers the middlewares set (see Left out) |
| VerifyToken.TokenFromCookies | src/middlewares/verifyToken.ts:13-18 | the cookie is used exactly when present and not "", "null" or "undefined" |
| VerifyToken.TokenFromHeader | src/middlewares/verifyToken.ts:26-28 | a header token exists exactly for a "Bearer " header, and is the space-free text after it up to the next space |
| VerifyToken.GetToken | src/middlewares/verifyToken.ts:25-31 | a usable cookie wins; otherwise the header decides |
| VerifyToken.Verify | src/middlewares/verifyToken.ts:40-63 | no or empty token: 401 "No token provided"; a failing token: 401 "Invalid token"; both leave `req.user` alone and do not call `next`. Otherwise the claims become `req.user`, `next` is called, and the response is untouched |
| VerifyToken.BearerToken | src/middlewares/verifyToken.ts:26-28 | a token without spaces written after "Bearer " is read back |
| VerifyToken.BearerEmpty | src/middlewares/verifyToken.ts:43-47 | "Bearer " alone gives the empty token, which is answered as no token |
| VerifyToken.BearerFirstWord | src/middlewares/verifyToken.ts:27 | only the first word after "Bearer " is taken |
| VerifyToken.OtherSchemes | src/middlewares/verifyToken.ts:26 | "Basic ..." and lower-case "bearer ..." give no header token |
| VerifyToken.CookieWins | src/middlewares/verifyToken.ts:30 | a usable cookie is used whatever the header says |
| VerifyToken.SentinelIgnored | src/middlewares/verifyToken.ts:15-17 | a sentinel cookie counts as no cookie |
| VerifyToken.TokenFromRequest | src/middlewares/verifyToken.ts:25-31 | the token used is the cookie's value or a piece of the authorization header |
| Cors.Resolve | src/middlewares/cors.ts:81-87 | missing options default to not skipped, no origins, the four methods and the two headers |
| Cors.ParseHeader | src/middlewares/cors.ts:25 | no values give "", one value gives itself |
| Cors.AllowedOrigin | src/middlewares/cors.ts:61-68 | "*" in development and test; in production, staging and with no `NODE_ENV`, the origin when listed and "" when not |
| Cors.UpperAll | src/middlewares/cors.ts:46 | each method is upper-cased, in order |
| Cors.SetCorsHeaders | src/middlewares/cors.ts:37-50 | the four headers are set over the earlier ones; status and body are untouched |
| Cors.Handle | src/middlewares/cors.ts:81-99 | skipped or without an origin: nothing set and `next` called; otherwise the headers are set, OPTIONS is answered 204 without `next`, and other methods call `next` |
| Cors.OriginNeverWidened | src/middlewares/cors.ts:66-67 | "*" only in development and test, and a non-empty origin is echoed only when listed |
| Cors.DefaultOriginsAllowNone | src/middlewares/cors.ts:84 | with default options, production and staging send an empty Access-Control-Allow-Origin for every origin, allowing none |
| Cors.DefaultHeaderValues | src/middlewares/cors.ts:6-7 | the default headers read "GET, POST, PUT, DELETE" and "Content-Type, Authorization" |
| Cors.LowerMethodsUpperCased | src/middlewares/cors.ts:44-47 | methods ["get", "post"] are sent as "GET, POST": the upper-casing is done by the caller of `parseHeader`, not by `parseHeader` itself as its own doc comment suggests |
| Cors.CorsHeadersShape | src/middlewares/cors.ts:43-49 | exactly the four headers are added, credentials are always "true", other headers are kept |
| Cors.ParseHeaderSplit | src/middlewares/cors.ts:25 | splitting the header on "," gives back the comma-free values, each after the first with its leading space |

## Left out

- The HTTP controllers, the routes, the dependency-injection wiring and the configuration loading are not modelled. The services receive their collaborators explicitly.
- jsonwebtoken is not modelled. Signing is the function parameter `sign` of `AuthService.Jwt`, None where it throws; verification in `verifyToken` is the parameter `decode`. Expiry and the signature scheme are therefore not modelled.
- Bcrypt.HashValue: a deterministic stand-in, not bcrypt. It keeps the cost prefix, the match of a value with its own hash, and the 72-byte truncation. Salting, one-wayness and the slowness of bcrypt are not modelled, so two hashes of one value are equal here.
- TokenService.Ledger.Create: the unique index on the stored hash is not modelled. Real hashes are salted and the signed JWTs differ, so a collision does not arise. The foreign key to the user is not checked either, and `expiresAt` is the database's `now`, passed in as a parameter. AuthService.Auth.Refresh inherits this: it issues a row for any `userId`, where the source's insert fails for a `userId` outside the `integer` range or naming no user. The serial key's sequence ends at 2147483647, the `integer` maximum; an insert past it fails in the source and is not modelled.
- AuthService.Auth.Logout: inherits the gaps of TokenService.CriteriaOf. Envelopes such as `{"id":{"revoked":0}}`, `{"id":{"id":"5"}}` or `{"id":{"user":{}}}` revoke rows in the source but are QueryFailed with the ledger unchanged here. The as-written finding does not depend on them: `{"id":{"revoked":false}}` already revokes every row (AuthService.LogoutForgedRevokesAll).
- TokenService.WhereOf: a condition value of another JSON type than its column's, and an empty `user` object, are failed queries here, while the source's update converts them and selects rows; see TokenService.CriteriaOf.
- AuthService.LogoutIssued: assumes the ledger has fewer than 2147483647 rows, so the new row's key fits the `integer` column; the insert that would exceed it fails in the source, and that failure is not modelled (see TokenService.Ledger.Create).
- TokenService.Ledger.FindAll: the source's `findAndCount` sets no `order`, so PostgreSQL returns the user's rows in no fixed order, which after an update need not be id order. The model lists them by id; the page's contents are only determined up to that order.
- Http.Response.Reply: Express's `res.json` also writes `Content-Type`, `Content-Length` and an `ETag`. These headers are not modelled: the frame keeps the headers as they were, so the claim that the other headers are kept covers only the headers the middlewares themselves set, and VerifyToken.Verify inherits this.
- Http.Response.SendStatus: Express's `res.sendStatus` also sets the status text as the body (a 204 answer drops it), writes an `ETag` and, for 204, removes `Content-Type` and `Content-Length`. The model keeps the body and the headers as they were, so, as for Reply, only the headers the middlewares set are claimed kept, and Cors.Handle inherits this.
- AuthService.Auth.GenerateTokens: the two signings run concurrently in the source (`Promise.all`). The model runs them one after the other; the outcome is the same because they are independent.
- AuthService.EnvelopeId: in `refresh`, only a JSON number is used as a ledger key. Any other truthy `id` (a string, `true`, an array, an object) is modelled as a database error; how `findOneOrFail` would read an array or an object there, and the database's coercion of a numeric string such as "5" to an integer, are not modelled.
- TokenService.CriteriaOf: of the values `logout` can pass to `update`, numbers, non-empty arrays of numbers and objects over `id`, `token`, `revoked` and `user: {id}` are modelled. Strings (a key the database would coerce), `true`, arrays holding anything but numbers, `null` values, and conditions on the other columns (`expiresAt`, `revokedAt`, the timestamps) are modelled as failed queries. The empty object `{}` is a condition with no column and selects every row. The `updatedAt` stamp an update writes is not modelled. Inside a condition, a value of another JSON type than its column's is modelled as a failed query, although PostgreSQL reads the parameter from text and the update selects rows: `{"revoked":0}` selects the unrevoked rows like `{"revoked":false}`, `{"id":"5"}` row 5, and `{"user":{"id":"7"}}` user 7's rows. An empty `user` object, which TypeORM drops as no condition and so selects every row, is modelled as a failed query as well (TokenService.WhereOf).
- Pagination.Parse: the query values arrive already coerced by `z.coerce.number` and are modelled as finite rationals. A value that coerces to `NaN` (such as "abc") or to an infinity, which zod rejects as not a number, and the rounding of long digit strings to the nearest double, are not modelled.
- UserService.UserTable.Create: ids are dense, the new user taking `|rows| + 1`. PostgreSQL's sequence also advances on an insert that fails (a taken email, a value too long), which leaves gaps in the ids; those gaps are not modelled.
- UserService.UserTable.CreateHashed: ids are dense, as for Create; the gaps a failed insert leaves in the sequence are not modelled.
- Json: numbers are integers. The parser rejects fractions and exponents, so an envelope with a fractional `id` is modelled as undecodable. `JSON.stringify` of `undefined`, functions and non-finite numbers is not modelled. Characters are Unicode scalar values, so a `\u` escape of a lone surrogate half, which `JSON.parse` keeps in the string, is read as U+FFFD (Json.LoneSurrogate): the `id` of such an envelope is read as in the source, but a string holding the half differs. Integer literals are kept exact, where `JSON.parse` rounds those above 2^53 to the nearest double; as keys, both values lie outside the `integer` range and fail alike.
- TokenEncoder.Decode: Node's Base64 decoder is lenient. It skips characters outside the alphabet and accepts missing padding, and its UTF-8 decoder replaces bad bytes with U+FFFD. The model's decoders are strict and give null in those cases. Strings the model accepts decode to the same value in Node.
- Strings.Upper: `toUpperCase` is modelled for ASCII letters only. Other characters keep their case.
- UserService.UserTable.Update: TypeORM's `update` with an empty patch is modelled as a no-op write. The `updatedAt`, `createdAt` and `deletedAt` timestamps are not modelled beyond `deletedAt` being set by `delete`; listing order uses the serial id, which follows creation order.
- UserService: a value that passes the request schema can still be too long for its column. The schema allows a username of 100 characters and an email of 255; the columns hold 50 and 55. The model answers ValueTooLong, as the database would, but does not model the schema itself (zod).
- The `options` argument of the services' find methods (extra TypeORM conditions) is not modelled; it is always empty in the callers.
- Logging (`logger.error` in `verifyToken`) and the exact JSON bodies of TypeORM and database errors are not modelled.
- Concurrency between requests is not modelled: each operation runs alone on the tables.

## Findings

| source | as written | input that shows it | evidently intended | confidence | as-written member | corrected member |
|---|---|---|---|---|---|---|
| src/services/auth.ts:71-74 | `logout` checks only that `decoded.id` is truthy and passes it to `revoke`, whose `update(id, ...)` (src/services/token.ts:79) reads an array as primary keys and an object as a condition on columns; `/logout` needs no authentication (src/routes/auth.ts:18) | POST /logout with the refresh token Base64(`{"id":{"revoked":false}}`): every row of the ledger is revoked, signing out every user; Base64(`{"id":[1,2]}`) revokes rows 1 and 2 whoever owns them | only a numeric `id`, the key of the caller's own row, is accepted | not executed; medium (rests on TypeORM's reading of `update` criteria) | AuthService.LogoutForgedRevokesAll | AuthService.Auth.LogoutNumeric |
| src/services/user.ts:76-79 | `create` saves the registration data as given, so the password is stored in plain text, while `login` (src/services/auth.ts:37) compares the typed password against it as a bcrypt hash | register with password "secret12", then log in with the same email and "secret12": the check fails | the password is hashed before it is saved, as test/services/user.spec.ts:83-102 expects of `create`, so the user can log in with it | not executed; high | AuthService.RegisteredCannotLogin | AuthService.RegisteredHashedCanLogin |
