/** Failure-carrying values shared by every module of the model. */
module Wrappers {

  /** A JavaScript value that may be `null`/`undefined` (None) or present (Some). */
  datatype Option<+T> = None | Some(value: T) {

    /** The value, or `default` when absent (the `x || default` idiom for non-falsy values). */
    function GetOr(default: T): T {
      match this
      case Some(v) => v
      case None => default
    }
  }

  /** The outcome of a service call: a value, or the message of the `Error` it throws. */
  datatype Result<+T> = Ok(value: T) | Err(error: string)
}
