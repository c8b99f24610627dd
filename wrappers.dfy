/** Absent values, results that may fail, and outcomes of commands that may fail. */
module Wrappers {

  /** A value that may be missing: what a lookup by key returns. */
  datatype Option<+T> = None | Some(value: T)

  /** A computed value or the error that prevented it. */
  datatype Result<+T, +E> = Success(value: T) | Failure(error: E)

  /** The outcome of a command that returns nothing but may fail. */
  datatype Outcome<+E> = Pass | Fail(error: E)
}
