/** Failure-carrying values for the hook's thrown errors and optional lookups. */
module Wrappers {

  /** A value that may be missing (`undefined` in the hook). */
  datatype Option<+T> = None | Some(value: T)

  /** The outcome of an operation that either returns a value or throws. */
  datatype Result<+T, +E> = Success(value: T) | Failure(error: E)
}
