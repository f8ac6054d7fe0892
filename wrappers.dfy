/** Nullable values and operations that may fail. */
module Wrappers {

  /** A C# nullable reference or a JavaScript value that may be null or undefined. */
  datatype Option<+T> = None | Some(value: T)

  /** The outcome of an operation that may throw. */
  datatype Result<+T, +E> = Success(value: T) | Failure(error: E)
}
