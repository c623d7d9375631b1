/** Wrappers used throughout the model: an optional value and a value-or-error
    result. */
module Wrappers {

  /** An optional value; `None` stands for Python's `None`. */
  datatype Option<+T> = None | Some(value: T)

  /** Either the value a stage computed or the error that aborted it. */
  datatype Result<+R, +E> = Success(value: R) | Failure(error: E)
}
