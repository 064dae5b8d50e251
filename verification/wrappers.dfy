/** Failure-carrying values shared by the rest of the model. */
module Wrappers {

  /** A value that may be absent: `None` models a Python `None` result
      or an operation that raised instead of returning. */
  datatype Option<+T> = None | Some(value: T) {

    /** The wrapped value, or `default` when there is none. */
    function GetOr(default: T): T {
      match this
      case Some(v) => v
      case None => default
    }
  }

  /** The outcome of a request handler: either the new state or the error
      that aborted the request. */
  datatype Result<+R, +E> = Ok(value: R) | Err(error: E)
}
