/** Option and Result values shared by the dashboard model. */
module Wrappers {

  datatype Option<+T> = None | Some(value: T) {
    function GetOr(default: T): T {
      match this
      case Some(v) => v
      case None => default
    }
  }

  /** A computation that either produced a value or raised an exception with a message. */
  datatype Result<+T> = Ok(value: T) | Err(error: string)
}
