/** Failure-compatible wrappers shared by the other modules. */
module Wrappers {

  /** A value that may be missing; as a column value, None is SQL NULL. */
  datatype Option<+T> = None | Some(value: T) {

    /** The value, or `default` when there is none (JavaScript's `??`). */
    function GetOr(default: T): T {
      match this
      case Some(v) => v
      case None => default
    }
  }

  /** The outcome of an operation that returns nothing but may raise `error`. */
  datatype Outcome<+E> = Pass | Fail(error: E)

  /** The outcome of an operation that returns `value` or raises `error`. */
  datatype Result<+R, +E> = Success(value: R) | Failure(error: E)
}
