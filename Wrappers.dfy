/** Option and Result values used throughout the model. */
module Wrappers {

  /** A value that may be absent; for a C# reference this is `null` versus an object. */
  datatype Option<+T> = None | Some(value: T)

  /** The outcome of an operation that may raise an exception instead of producing a value. */
  datatype Result<+T, +E> = Success(value: T) | Failure(error: E)
}
