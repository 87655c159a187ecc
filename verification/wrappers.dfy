/** Failure-carrying datatypes shared by every module of the model. */
module Wrappers {

  /** A value that may be absent: JavaScript's `undefined`/`null` versus a value. */
  datatype Option<+T> = None | Some(value: T) {
    function GetOr(default: T): T {
      match this
      case Some(v) => v
      case None => default
    }
  }

  /** The result of an async service function: the value it returns, or the
      message of the `Error` it throws. */
  datatype Outcome<+T> = Ok(value: T) | Thrown(message: string)
}
