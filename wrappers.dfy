/** Result types shared by the parsers of the model. */
module Wrappers {

  /** A value that may be absent: used where the library call has a single failure mode. */
  datatype Option<+T> = None | Some(value: T)

  /** Either a value or the exception that the .NET call would have thrown. */
  datatype Result<+T, +E> = Success(value: T) | Failure(error: E)
}
