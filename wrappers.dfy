/** Failure-carrying results, standing in for Go's `(value, error)` returns. */
module Wrappers {

  /** A value or the error that prevented computing it. */
  datatype Result<+T, +E> = Success(value: T) | Failure(error: E)

  /** Success or failure of an operation that returns only an error. */
  datatype Outcome<+E> = Pass | Fail(error: E)
}
