/** Failure-compatible result types used by the repository's operations. */
module Wrappers {

  /** A value that may be absent (a C# nullable reference). */
  datatype Option<+T> = None | Some(value: T)

  /** Either a value or the error the operation raised. */
  datatype Result<+R, +E> = Success(value: R) | Failure(error: E)

  /** Success or an error, for operations that return nothing. */
  datatype Outcome<+E> = Pass | Fail(error: E)
}
