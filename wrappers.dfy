/** Option and Result, the two failure-carrying shapes the model needs. */
module Wrappers {

  datatype Option<+T> = None | Some(value: T) {
    function GetOr(default: T): T {
      match this
      case Some(v) => v
      case None => default
    }
  }

  /** The outcome of an awaited call: a value, or the message of the thrown Error. */
  datatype Result<+T, +E> = Ok(value: T) | Err(error: E)
}
