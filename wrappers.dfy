/** Failure-carrying values: `Option` for a match that may not exist,
    `Result` for an operation that raises in the original program. */
module Wrappers {

  datatype Option<+T> = None | Some(value: T)

  datatype Result<+T, +E> = Success(value: T) | Failure(error: E)
}
