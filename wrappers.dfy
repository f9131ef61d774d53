/** Option and Result types shared by the model's modules. */
module Wrappers {

  /** A value that may be missing (Python's `None`). */
  datatype Option<+T> = None | Some(value: T)

  /** The outcome of an operation that can raise: its value, or the error it raises. */
  datatype Result<+R, +E> = Success(value: R) | Failure(error: E)
}
