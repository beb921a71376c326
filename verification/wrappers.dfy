/** Option and Result types used to model Python's `None` and raised
    exceptions as ordinary values. */
module Wrappers {

  /** A value that may be absent: Python's `None` versus an object. */
  datatype Option<+T> = None | Some(value: T)

  /** The outcome of an operation that either produces a value or raises. */
  datatype Result<+R, +E> = Success(value: R) | Failure(error: E) {
    predicate IsFailure() {
      Failure?
    }
  }
}
