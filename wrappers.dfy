/** Option and Result, used for every operation that can return null or throw. */
module Wrappers {

  datatype Option<+T> = None | Some(value: T)

  /** The outcome of an operation that may throw: a value, or the error it throws. */
  datatype Result<+T, +E> = Ok(value: T) | Err(error: E)
}
