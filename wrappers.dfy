/** Option and Result, the two failure-carrying types the model uses. */
module Wrappers {

  /** A value that may be missing (JavaScript `null` / `undefined` at the host boundary). */
  datatype Option<+T> = None | Some(value: T)

  /** A computation that either succeeds or throws. */
  datatype Result<+T, +E> = Success(value: T) | Failure(error: E)
}
