/** Option and Result datatypes shared by the modules of the upload service model. */
module Wrappers {

  /** A value that may be absent: JavaScript's `null`/`undefined` results. */
  datatype Option<+T> = None | Some(value: T)

  /** The outcome of an async call that either resolves with a value or rejects with an error. */
  datatype Result<+R, +E> = Success(value: R) | Failure(error: E)
}
