/** An optional value and a success/error result, used across the model. */
module Wrappers {

  /** A value that may be absent (a missing object key, a `find` that found nothing). */
  datatype Option<+T> = None | Some(value: T) {

    /** The carried value, or `default` when absent (the `x || default` idiom). */
    function GetOr(default: T): T {
      match this
      case Some(v) => v
      case None => default
    }
  }

  /** Either a computed value or the error that prevented it. */
  datatype Result<+T, +E> = Ok(value: T) | Err(error: E)
}
