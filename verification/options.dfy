/**
 * Failure-carrying wrappers used throughout the model: `Option` for a value
 * that may be absent (a line that does not parse, a missing reference price)
 * and `Result` for an operation whose failure reaches the caller.
 */
module Options {

  datatype Option<+T> = None | Some(value: T)

  datatype Result<+T, +E> = Success(value: T) | Failure(error: E)
}

