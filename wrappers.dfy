/** Failure-carrying result types shared by the modules of the model. */
module Wrappers {

  /** A value that may be missing: a Python `None`, or an absent request field. */
  datatype Option<+T> = None | Some(value: T) {
    function GetOr(default: T): T {
      match this
      case Some(v) => v
      case None => default
    }
  }

  /** The outcome of an operation that either returns a value or reports an error. */
  datatype Result<+R, +E> = Success(value: R) | Failure(error: E)
}
