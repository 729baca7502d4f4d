/** Failure-carrying return types, standing in for the source's `Option`,
    `Result` and its `unwrap` panics. */
module Wrappers {

  datatype Option<+T> = None | Some(value: T)

  datatype Result<+T, +E> = Success(value: T) | Failure(error: E)
}
