/** Optional values and results with an error, used for the absent JSON keys,
    absent HTML elements and rejected arguments of the checker. */
module Wrappers {

  /** A value that may be absent (a missing key, a `None`, an element not found). */
  datatype Option<+T> = None | Some(value: T) {

    /** The value, or `default` when absent (Python's `d.get(key, default)`). */
    function GetOr(default: T): (r: T)
      ensures Some? ==> r == value
      ensures None? ==> r == default
    {
      match this
      case Some(v) => v
      case None => default
    }
  }

  /** The outcome of a step that either produces a value or fails with an error. */
  datatype Result<+T, +E> = Success(value: T) | Failure(error: E)
}
