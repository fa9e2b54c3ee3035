/** Small failure-carrying wrappers used across the model. */
module Outcomes {

  /** A value that may be absent (Ruby's `nil`). */
  datatype Option<+T> = None | Some(value: T) {
    function GetOr(default: T): T {
      match this
      case Some(v) => v
      case None => default
    }
  }

  /** The value a Ruby method returns, or the exception it raises. */
  datatype Result<+T, +E> = Ok(value: T) | Err(error: E)

  /** A Ruby method run for its effect: it completed, or it raised. */
  datatype Outcome<+E> = Pass | Fail(error: E)
}
