/** Option, Result and Outcome: the source's nulls and exceptions, as values. */
module Wrappers {

  /** A value that may be absent (a C# null reference). */
  datatype Option<+T> = None | Some(value: T)

  /** A computed value, or the exception that the source throws instead. */
  datatype Result<+T, +E> = Success(value: T) | Failure(error: E)

  /** Normal completion of a void operation, or the exception it throws. */
  datatype Outcome<+E> = Pass | Fail(error: E)
}
