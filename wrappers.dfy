/** Optional values, shared by the other modules. */
module Wrappers {

  /** A value that may be missing: a JSON field that is absent or null, an unset variable. */
  datatype Option<+T> = None | Some(value: T) {
    function GetOr(default: T): T {
      match this
      case Some(v) => v
      case None => default
    }
  }
}
