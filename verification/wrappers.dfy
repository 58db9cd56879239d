/** Failure-compatible wrappers shared by every module of the model. */
module Wrappers {

  /** A value that may be missing: Python's `None`, a JavaScript `null` or `undefined`. */
  datatype Option<+T> = None | Some(value: T) {

    /** The carried value, or `default` when there is none. */
    function GetOr(default: T): T {
      match this
      case Some(v) => v
      case None => default
    }
  }

  /** The outcome of an operation that can raise: a value or the error it raised. */
  datatype Result<+R, +E> = Success(value: R) | Failure(error: E)
}
