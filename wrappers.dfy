/** Failure-carrying result types used to model Java exceptions and null returns. */
module Wrappers {

  datatype Option<+T> = None | Some(value: T)

  datatype Result<+T, +E> = Success(value: T) | Failure(error: E)

  /** The outcome of an operation that has no value of its own but may fail. */
  datatype Outcome<+E> = Pass | Fail(error: E)
}
