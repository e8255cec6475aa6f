/** Failure-carrying result types shared by the whole model. */
module Wrappers {

  /** An optional value: `None` plays the part of JavaScript's `undefined`/`null`. */
  datatype Option<+T> = None | Some(value: T)

  /** The outcome of an operation that may throw: `Failure` carries the error. */
  datatype Result<+R, +E> = Success(value: R) | Failure(error: E)
}
