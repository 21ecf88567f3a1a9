/** Option, Result and Outcome: the stand-ins for C#'s null and for thrown exceptions. */
module Wrappers {

  /** A value that may be absent (a C# reference that may be null). */
  datatype Option<+T> = None | Some(value: T)

  /** A computed value, or the error that the C# code throws instead. */
  datatype Result<+R, +E> = Success(value: R) | Failure(error: E)

  /** The completion of a `void` C# method: it returns normally, or throws `error`. */
  datatype Outcome<+E> = Pass | Fail(error: E)
}
