/** Wrappers shared by the value and reader models.
  - Option<T> stands for a possibly-absent tag (an empty `value`).
  - Result<T, E> stands for an operation that either returns or throws. */
module Wrappers {

  datatype Option<+T> = None | Some(value: T)

  datatype Result<+T, +E> = Success(value: T) | Failure(error: E)
}
