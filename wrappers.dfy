/** Option and Result, with the Python exceptions that escape the statistics core. */
module Wrappers {

  datatype Option<T> = None | Some(value: T) {

    /** The wrapped value, or `default` when there is none. */
    function GetOr(default: T): T {
      match this
      case Some(v) => v
      case None => default
    }
  }

  /** Exceptions that kastats.py does not catch and that therefore end the run. */
  datatype PyError =
    | TypeError          // a group-key tuple holds a list or an object: it cannot be hashed
    | ZeroDivisionError  // a non-empty result table whose counts add up to zero

  datatype Result<T> = Ok(value: T) | Err(error: PyError)
}
