/** Optional values and results with an error, used wherever the modelled code returns
    `undefined`/`null` or throws. */
module Wrappers {

  /** `None` stands for a missing field, `undefined` or `null`. */
  datatype Option<+T> = None | Some(value: T) {

    /** The contained value, or `default` when there is none (JavaScript's `x || default`
        on a value that is either absent or an object). */
    function GetOr(default: T): T {
      match this
      case Some(v) => v
      case None => default
    }
  }

  /** A computation that either produces a value or fails with an error (a thrown `Error`). */
  datatype Result<+R, +E> = Success(value: R) | Failure(error: E)
}
