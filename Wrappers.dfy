/** Optional values and results with an error, standing in for C# null and exceptions. */
module Wrappers {

  /** A value that may be absent (a C# null or a nullable int without a value). */
  datatype Option<+T> = None | Some(value: T)

  /** The outcome of an operation that either yields a value or raises an error. */
  datatype Result<+R, +E> = Success(value: R) | Failure(error: E)
}
