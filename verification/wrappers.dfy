/** Failure-carrying datatypes shared by the rest of the model. */
module Wrappers {

  /** A value that may be absent, as a Go `value, ok` pair. */
  datatype Option<+T> = None | Some(value: T)

  /** A value or the error that replaced it, as a Go `value, err` pair. */
  datatype Result<+R, +E> = Success(value: R) | Failure(error: E)
}
