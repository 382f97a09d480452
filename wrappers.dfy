/** Failure-compatible wrappers shared by every module of the model. */
module Wrappers {

  /** A Java reference that may be `null`: `None` is null. */
  datatype Option<+T> = None | Some(value: T) {
    function GetOr(default: T): T {
      match this
      case Some(v) => v
      case None => default
    }
  }

  /** The outcome of a service call: a value, or the exception it throws. */
  datatype Result<+T, +E> = Ok(value: T) | Err(error: E)
}
