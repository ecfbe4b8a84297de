/** Failure-carrying return values, standing in for the exceptions the store throws. */
module Wrappers {

  /** Either the value an operation returns or the error it fails with. */
  datatype Result<+T, +E> = Success(value: T) | Failure(error: E)

  /** The outcome of an operation that returns nothing when it succeeds. */
  datatype Outcome<+E> = Pass | Fail(error: E)
}
