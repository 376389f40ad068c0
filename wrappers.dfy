/** Option and Result values used in place of Python's `None` and raised `ValueError`s. */
module Wrappers {

  datatype Option<+T> = None | Some(value: T) {
    /** The wrapped value, or `default` for `None` (Python's `x or default` on lists). */
    function GetOr(default: T): T {
      match this
      case Some(v) => v
      case None => default
    }
  }

  /** `Failure` carries the message of the `ValueError` the source raises. */
  datatype Result<+R, +E> = Success(value: R) | Failure(error: E)
}
