/** Failure-carrying result types shared by the codec and the session model. */
module Wrappers {

  /** A value that may be missing: the `None` that `receive_async` returns on a failed read. */
  datatype Option<+T> = None | Some(value: T)

  /** Either a value or the error that stopped its computation. */
  datatype Result<+T, +E> = Success(value: T) | Failure(error: E)
}
