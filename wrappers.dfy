/** Optional values and success-or-failure results, the model's counterparts of Kotlin's
    nullable types and of `kotlin.Result`. */
module Wrappers {

  datatype Option<+T> = None | Some(value: T) {
    /** Kotlin's `orEmpty()` / `?:` with a default value. */
    function GetOr(default: T): T {
      match this
      case Some(v) => v
      case None => default
    }
  }

  datatype Result<+T, +E> = Success(value: T) | Failure(error: E)
}
