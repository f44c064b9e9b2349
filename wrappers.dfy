/** Failure-compatible wrappers shared by the other modules. */
module Wrappers {

  /** A value that may be absent: JavaScript's `null` result. */
  datatype Option<+T> = None | Some(value: T) {
    function GetOr(default: T): T {
      match this
      case Some(v) => v
      case None => default
    }
  }

  /** A computation that may throw: `Failure` carries the error's message. */
  datatype Result<+T> = Success(value: T) | Failure(error: string)
}
