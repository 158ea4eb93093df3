/** Option and Result, the shapes the Rust code uses for nullable columns
    and for `Result<_, String>` returns. */
module Wrappers {

  datatype Option<+T> = None | Some(value: T) {
    function GetOr(default: T): T {
      match this
      case Some(v) => v
      case None => default
    }
  }

  /** An operation's outcome: a value, or the error message the command returns. */
  datatype Result<+T> = Ok(value: T) | Err(error: string)

  /** The unit value carried by operations that return `Result<(), String>`. */
  datatype Unit = Unit
}
