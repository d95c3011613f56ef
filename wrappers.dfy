/** Option and Result: a missing cell, and an operation that either succeeds or raises. */
module Wrappers {

  /** A cell or a lookup that may be absent (pandas' NaN / missing key). */
  datatype Option<T> = None | Some(value: T) {

    /** The value, or `default` when absent (pandas' `fillna(default)` on one cell). */
    function GetOr(default: T): T {
      match this
      case Some(v) => v
      case None => default
    }
  }

  /** The outcome of a stage that may raise: the new value or the error it raises. */
  datatype Result<T, E> = Success(value: T) | Failure(error: E)
}
