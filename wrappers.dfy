/** Option and Result, used for the absent values and the failures of the model. */
module Wrappers {

  /** A value that may be absent (the role `null` plays for the C# reference fields). */
  datatype Option<+T> = None | Some(value: T)

  /** The outcome of an operation that may throw: its value or the reason it failed. */
  datatype Result<+T, +E> = Success(value: T) | Failure(error: E)
}
