/** `Option` and `Result` datatypes shared by every module of the model. */
module Wrappers {

  /** A value that may be absent: a request field that was not sent. */
  datatype Option<+T> = None | Some(value: T)

  /** The outcome of an operation that can fail with an error of type `E`. */
  datatype Result<+T, +E> = Success(value: T) | Failure(error: E)
}
