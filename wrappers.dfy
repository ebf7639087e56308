/** Failure-compatible wrappers: a value that may be absent, and a result that may be an error. */
module Wrappers {

  /** A JavaScript value that may be `undefined` (or `null`, where the source treats both alike). */
  datatype Option<+T> = None | Some(value: T) {
    /** The value, or the default that a destructuring `x = default` supplies when it is undefined. */
    function GetOr(default: T): T {
      match this
      case Some(v) => v
      case None => default
    }
  }

  /** The outcome of an operation that either returns or throws. */
  datatype Result<+T, +E> = Ok(value: T) | Err(error: E)
}
