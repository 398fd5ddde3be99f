/** Failure-compatible carriers shared by every module of the model. */
module Wrappers {

  /** A value that may be absent: Python's `None` versus a present value. */
  datatype Option<+T> = None | Some(value: T) {
    function GetOr(default: T): T {
      match this
      case Some(v) => v
      case None => default
    }
  }

  /** The `(value, error_message)` pairs the scripts return, as one sum type. */
  datatype Result<+T> = Ok(value: T) | Err(msg: string)
}
