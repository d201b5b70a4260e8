/** Failure-carrying results used across the model. */
module Wrappers {

  /** A value that may be absent: JavaScript's `null`/`undefined`. */
  datatype Option<+T> = None | Some(value: T)

  /** A computation that either yields a value or raises an error. */
  datatype Result<+T, +E> = Success(value: T) | Failure(error: E)
}
