/** Failure-carrying result types shared by the wallet model. */
module Wrappers {

  /** A value that may be absent: a flag that was not given, an unparsable path. */
  datatype Option<+T> = None | Some(value: T)

  /** The outcome of an operation that either produces a value or fails with an error. */
  datatype Result<+T, +E> = Success(value: T) | Failure(error: E)
}
