/** Option and Result values shared by the model. */
module Wrappers {

  /** A value that may be absent (Python's `None`). */
  datatype Option<+T> = None | Some(value: T)

  /** A value, or the error a call raises instead of returning one. */
  datatype Result<+R, +E> = Success(value: R) | Failure(error: E)
}
