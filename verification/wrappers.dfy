/** Failure-carrying results used across the routing model. */
module Wrappers {

  /** A value that may be absent (JavaScript `null` / `undefined`). */
  datatype Option<+T> = None | Some(value: T)

  /** Either a computed value or the error that aborted the computation. */
  datatype Result<+R, +E> = Success(value: R) | Failure(error: E)
}
