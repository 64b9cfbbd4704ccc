/** Failure-carrying result types shared by every stage of the pipeline. */
module Wrappers {

  /** A value that may be absent, as Python's `None` return. */
  datatype Option<T> = None | Some(value: T)

  /** Either a computed value or the error that aborted the computation. */
  datatype Result<T, E> = Success(value: T) | Failure(error: E)
}
