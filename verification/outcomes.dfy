/** Failure-carrying wrappers shared by the parsers and the loader. */
module Outcomes {

  /** A value that may be missing: the result of a parse that can fail. */
  datatype Option<+T> = None | Some(value: T)

  /** The outcome of an operation that either produces a value or stops with an error. */
  datatype Result<+R, +E> = Success(value: R) | Failure(error: E)
}
