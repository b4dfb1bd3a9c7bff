/** Failure-compatible wrappers used throughout the model: `Option` for values
    Python represents with `None`, `Result` for operations that raise. */
module Wrappers {

  datatype Option<+T> = None | Some(value: T)

  datatype Result<+R, +E> = Success(value: R) | Failure(error: E)
}
