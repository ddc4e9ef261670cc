/** Failure-compatible wrappers shared by the other modules. */
module Wrappers {

  datatype Option<+T> = None | Some(value: T)

  /** The value of a call that either returns or raises a Python exception. */
  datatype Result<+R, +E> = Success(value: R) | Failure(error: E)
}
