/** Failure-compatible result types shared by the stores. */
module Wrappers {

  /** A value that may be absent (`undefined` or `null` in the application). */
  datatype Option<T> = None | Some(value: T)
  {
    /** The value, or `default` when absent, as a defaulted parameter reads it. */
    function GetOr(default: T): (v: T)
    {
      match this
      case Some(v) => v
      case None => default
    }
  }

  /** The outcome of an operation that yields no value: it passed, or failed with an error. */
  datatype Outcome<E> = Pass | Fail(error: E)
}
