/** Option values stand for Python's `None`-or-value fields and for outcomes that can
    fail because the interactive input ran out. */
module Wrappers {

  datatype Option<+T> = None | Some(value: T) {

    /** The contained value, or `default` when there is none. */
    function GetOr(default: T): T {
      match this
      case Some(v) => v
      case None => default
    }
  }
}
