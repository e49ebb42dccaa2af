/** Failure-carrying result types shared by the other modules. */
module Wrappers {

  /** A value that may be absent: JavaScript's `undefined` where the source reads one. */
  datatype Option<+T> = None | Some(value: T)

  /** A computation that either succeeds with a value or fails with an error. */
  datatype Result<+R, +E> = Success(value: R) | Failure(error: E)
}
