/** Failure-carrying result types shared by the reader model. */
module Wrappers {

  /** A value that may be absent, in place of Python's `None`. */
  datatype Option<+T> = None | Some(value: T)

  /** Either a value or the error that stopped its computation. */
  datatype Result<+T, +E> = Success(value: T) | Failure(error: E)
}
