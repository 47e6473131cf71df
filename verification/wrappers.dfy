/** Option and Result, the failure-carrying values used across the model. */
module Wrappers {

  /** A nullable column, an absent JSON key, or a query whose `.first()` found no row. */
  datatype Option<+T> = None | Some(value: T) {

    /** The value, or `default` when absent (Python's `dict.get(key, default)`). */
    function GetOr(default: T): (v: T) {
      match this
      case Some(v) => v
      case None => default
    }
  }

  /** The outcome of an operation that may raise an error instead of returning. */
  datatype Result<+R, +E> = Ok(value: R) | Err(error: E)
}
