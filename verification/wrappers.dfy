/** Optional values: `undefined`/`null` on the JavaScript side, and the
    "operation threw" outcome of a call the model does not look inside. */
module Wrappers {

  datatype Option<+T> = None | Some(value: T) {

    /** The value if present, otherwise `default`. */
    function GetOr(default: T): (r: T) {
      match this
      case Some(v) => v
      case None => default
    }
  }
}
