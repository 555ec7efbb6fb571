/** Optional values and the outcome of a computation that may throw. */
module Wrappers {

  /** A value that may be missing; `None` stands for JavaScript's `undefined`. */
  datatype Option<+T> = None | Some(value: T) {

    /** The value, or `default` when there is none. */
    function GetOr(default: T): T {
      match this
      case Some(v) => v
      case None => default
    }
  }

  /**
   The result of JavaScript code that either returns a value or throws a
   `TypeError` (reading a property of `null`, indexing a missing array).
   */
  datatype Outcome<+T> = Ok(value: T) | Thrown
}
