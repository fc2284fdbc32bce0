/** Failure-compatible wrappers shared by the modules of this project. */
module Wrappers {

  /** A value that may be absent (JavaScript's `undefined`/`null`). */
  datatype Option<+T> = None | Some(value: T)
  {
    function GetOr(default: T): T
    {
      match this
      case Some(v) => v
      case None => default
    }
  }

  /** The outcome of a computation that may throw an `Error` with a message. */
  datatype Result<+T> = Ok(value: T) | Thrown(message: string)
}
