/** Option and Outcome values used in place of the source's missing-value
    marker (pandas' NA) and its startup exception. */
module Wrappers {

  datatype Option<T> = None | Some(value: T) {

    /** The value, or `default` when missing (pandas' `fillna(default)` on one cell). */
    function GetOr(default: T): T {
      match this
      case Some(v) => v
      case None => default
    }
  }

  /** Pass, or Fail carrying the error a startup check raises. */
  datatype Outcome<E> = Pass | Fail(error: E)
}
