/** Plain wrapper datatypes used in place of null references and thrown exceptions. */
module Wrappers {

  /** A value that may be absent (a C# reference that may be null). */
  datatype Option<+T> = None | Some(value: T)

  /** A computed value or the exception that computing it raises. */
  datatype Result<+T, +E> = Success(value: T) | Failure(error: E)

  /** An operation that returns normally or raises an exception. */
  datatype Outcome<+E> = Pass | Fail(error: E)
}
