/** Failure-compatible wrappers used throughout the model: an optional value
    (Python's `None` or a missing dictionary key) and a success/failure result
    (an early `return False` with a message in the bot). */
module Wrappers {

  datatype Option<+T> = None | Some(value: T) {

    /** The value, or `default` when absent (Python's `d.get(key, default)`). */
    function GetOr(default: T): T {
      match this
      case Some(v) => v
      case None => default
    }
  }

  datatype Result<+R, +E> = Success(value: R) | Failure(error: E)
}
