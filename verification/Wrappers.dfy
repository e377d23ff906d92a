/** Result shapes shared by every module: an optional value, and a value or an error. */
module Wrappers {
  datatype Option<+T> = None | Some(value: T) {
    /** `x ?? fallback` of the source. */
    function GetOr(fallback: T): T {
      if Some? then value else fallback
    }
  }

  datatype Result<+T, +E> = Ok(value: T) | Err(error: E)
}
