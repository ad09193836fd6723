/** Option and Result: the error paths of the memory engine are values, not exceptions. */
module Wrappers {

  /** A value that may be absent (Python's `Optional`, `None`). */
  datatype Option<+T> = None | Some(value: T)

  /** The outcome of an operation that may raise: `Success` carries the value, `Failure` the exception. */
  datatype Result<+R, +E> = Success(value: R) | Failure(error: E)
}
