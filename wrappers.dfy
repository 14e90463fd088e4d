/** Optional values and results, used where the source returns `undefined` or throws. */
module Wrappers {

  /** A value that may be absent (`undefined` from a `.get()` on no row). */
  datatype Option<+T> = None | Some(value: T) {
    function GetOr(default: T): T {
      match this
      case Some(v) => v
      case None => default
    }
  }

  /** The outcome of a statement that either yields a value or raises an error. */
  datatype Result<+R, +E> = Ok(value: R) | Err(error: E)
}
