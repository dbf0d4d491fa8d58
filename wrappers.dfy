/** Option and Result, the two failure-compatible wrappers the model uses for Ruby's
    `nil` and for exceptions that a method raises. */
module Wrappers {

  /** A value or Ruby's `nil`. */
  datatype Option<+T> = None | Some(value: T) {

    /** The wrapped value, or `default` for `nil` (Ruby's `x || default`). */
    function GetOr(default: T): T {
      match this
      case Some(v) => v
      case None => default
    }
  }

  /** The value a Ruby method returns, or the exception it raises. */
  datatype Result<+T, +E> = Ok(value: T) | Err(error: E)
}
