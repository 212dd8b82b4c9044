/**
 * The errors the services throw. The source throws plain `Error`s with a
 * message (or lets TypeORM's own errors escape); here each becomes a kind.
 */
module Errors {

  import opened Wrappers

  datatype Failure =
    | InvalidCredentials   // auth.ts: 'Invalid email or password'
    | EmailInUse           // auth.ts: 'Email already in use'
    | InvalidToken         // auth.ts: 'Invalid token'
    | TokenRevoked         // auth.ts: 'Token has been revoked'
    | NotFound             // TypeORM's findOneOrFail: EntityNotFoundError
    | UniqueViolation      // the database rejects a second row with the same email
    | ValueTooLong         // the database rejects a value longer than its varchar column
    | QueryFailed          // the database rejects an id that is not an integer, or one outside `integer`'s range
    | SigningFailed        // jsonwebtoken's sign throws (an empty secret, for one)

  /**
   * PostgreSQL's `integer`, the type of every serial key
   * (`@PrimaryGeneratedColumn()`): a query that compares a key column with
   * a number outside this range fails with "value out of range for type
   * integer".
   */
  const Int4Min: int := -0x8000_0000
  const Int4Max: int := 0x7FFF_FFFF

  predicate IsInt4(n: int)
  {
    Int4Min <= n <= Int4Max
  }

  /**
   * The message of the errors the source throws itself; the others carry
   * the wording of the library or the database that raised them.
   */
  function Message(f: Failure): Option<string>
  {
    match f
    case InvalidCredentials => Some("Invalid email or password")
    case EmailInUse => Some("Email already in use")
    case InvalidToken => Some("Invalid token")
    case TokenRevoked => Some("Token has been revoked")
    case _ => None
  }
}
