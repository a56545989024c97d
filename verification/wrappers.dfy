/** Wrappers used across the model: `Option` stands for the
    Python functions that return `None`, `Result` for the ones that raise. */
module Wrappers {

  datatype Option<+T> = None | Some(value: T)

  datatype Result<+R, +E> = Success(value: R) | Failure(error: E)
}
