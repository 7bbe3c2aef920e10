/** Optional values and results with an error, shared by every module. */
module Wrappers {

  /** A value that may be absent: JavaScript's `undefined`, or the NaN an
      abstract number parser returns for text that is not a number. */
  datatype Option<+T> = None | Some(value: T) {
    function GetOr(default: T): T {
      match this
      case Some(v) => v
      case None => default
    }
  }

  /** The outcome of a step that may throw: `Err` carries what the thrown
      error reports. */
  datatype Result<+T, +E> = Ok(value: T) | Err(error: E)
}
