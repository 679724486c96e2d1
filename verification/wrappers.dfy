/** Failure-carrying values used across the model: Python's `None`-or-value
    results become `Option`, and operations that may raise become `Result`. */
module Wrappers {

  datatype Option<+T> = None | Some(value: T)

  datatype Result<+T, +E> = Success(value: T) | Failure(error: E)
}
