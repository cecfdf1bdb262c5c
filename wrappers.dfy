/** Python's `None` / missing value, and a call that either returns or raises. */
module Wrappers {

  /** An optional value: a missing HTML attribute or element is `None`. */
  datatype Option<+T> = None | Some(value: T) {

    /** The value, or `default` when there is none (Python's `dict.get(key, default)`). */
    function GetOr(default: T): T {
      match this
      case Some(v) => v
      case None => default
    }
  }

  /** The outcome of a call that may raise: its value, or the exception it raises. */
  datatype Result<+R, +E> = Success(value: R) | Failure(error: E)
}
