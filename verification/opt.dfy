/** The optional value used wherever the app reads something that may be absent
    (a stored key, a parsed date, the last log moment). */
module Opt {

  datatype Option<+T> = None | Some(value: T) {

    /** The wrapped value, or `default` when absent (Swift's `??`). */
    function GetOr(default: T): T {
      match this
      case Some(v) => v
      case None => default
    }
  }
}
