/** Option and Result, the two failure-carrying wrappers the rest of the model uses. */
module Wrappers {

  /** A JavaScript value that may be `null`/`undefined` (None) or present (Some). */
  datatype Option<+T> = None | Some(value: T) {
    function GetOr(default: T): T {
      match this
      case Some(v) => v
      case None => default
    }
  }

  /** The outcome of a call that can fail with a message (a rejected promise). */
  datatype Result<+T> = Ok(value: T) | Err(message: string)
}
