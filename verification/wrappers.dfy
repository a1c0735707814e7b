/** Optional values and results-or-errors, used wherever the JavaScript code
    reads `undefined`, `?.`, `??` or throws an `Error`. */
module Wrappers {

  datatype Option<T> = None | Some(value: T) {

    /** `this ?? fallback` */
    function GetOr(fallback: T): T {
      match this
      case Some(v) => v
      case None => fallback
    }
  }

  /** The value of a computation that either returns or throws an `Error`
      carrying a message. */
  datatype Result<T> = Success(value: T) | Failure(message: string)
}
