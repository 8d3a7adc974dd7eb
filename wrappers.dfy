/** Optional values and results with an error, used wherever the Swift code has an optional or throws. */
module Wrappers {

  /** Swift's `T?`. */
  datatype Option<+T> = None | Some(value: T) {

    /** The value, or `default` when there is none (Swift's `??`). */
    function GetOr(default: T): T {
      match this
      case Some(v) => v
      case None => default
    }
  }

  /** The outcome of a throwing call: a value, or the error it threw. */
  datatype Result<+T, +E> = Success(value: T) | Failure(error: E)
}
