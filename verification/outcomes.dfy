/** Optional values and results with an error, standing for pandas' missing
    values (NaN, None) and for the exceptions the reconciliation code raises
    or catches. */
module Outcomes {

  datatype Option<+T> = None | Some(value: T) {
    function GetOr(default: T): T {
      match this
      case Some(v) => v
      case None => default
    }
  }

  datatype Result<+T, +E> = Ok(value: T) | Err(error: E)
}
