/** Failure-carrying result types shared by the other modules. */
module Wrappers {

  /** A value that may be absent (JavaScript's null / undefined). */
  datatype Option<+T> = None | Some(value: T)

  /** Either a computed value or the reason the computation was rejected. */
  datatype Result<+R, +E> = Success(value: R) | Failure(error: E)
}
