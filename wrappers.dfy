/** Option and Result, for JavaScript's `undefined` and for thrown errors. */
module Wrappers {

  /** `None` stands for JavaScript's `undefined`/`null`. */
  datatype Option<+T> = None | Some(value: T)

  /** `Failure` stands for an exception thrown by the operation. */
  datatype Result<+R, +E> = Success(value: R) | Failure(error: E)
}
