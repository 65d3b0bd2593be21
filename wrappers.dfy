/** Optional values and success/failure results used throughout the model. */
module Wrappers {

  /** A value that may be absent (Python's `None`). */
  datatype Option<+T> = None | Some(value: T) {
    function GetOr(default: T): T {
      match this
      case Some(v) => v
      case None => default
    }
  }

  /** The outcome of a step that either yields a value or reports an error. */
  datatype Result<+T, +E> = Success(value: T) | Failure(error: E)
}
