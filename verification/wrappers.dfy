/** Failure-compatible result types shared by every module of the model. */
module Wrappers {

  /** A value that may be absent: JavaScript's `undefined`/`null`, Python's missing entry. */
  datatype Option<+T> = None | Some(value: T)

  /** The outcome of an operation that can raise: Python's exception, JavaScript's throw. */
  datatype Result<+R, +E> = Success(value: R) | Failure(error: E)
}
