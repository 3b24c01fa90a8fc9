/** Option and Result values used across the model. */
module Wrappers {

  /** A value that may be absent: JavaScript's `T | undefined`. */
  datatype Option<+T> = None | Some(value: T) {

    /** JavaScript's `x ?? default`. */
    function GetOr(default: T): (r: T)
      ensures Some? ==> r == value
      ensures None? ==> r == default
    {
      match this
      case Some(v) => v
      case None => default
    }
  }

  /** The outcome of an operation that can fail. */
  datatype Result<+T, +E> = Success(value: T) | Failure(error: E)
}
