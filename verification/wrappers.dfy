/** Failure-carrying values used across the model. */
module Wrappers {

  /** A value that may be absent: Python's None, or a missing (NaN) table cell. */
  datatype Option<+T> = None | Some(value: T) {
    function GetOr(default: T): T {
      match this
      case Some(v) => v
      case None => default
    }
  }

  /** The outcome of an operation that can raise. */
  datatype Result<+R, +E> = Success(value: R) | Failure(error: E)
}
