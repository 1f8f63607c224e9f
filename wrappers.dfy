/** The optional value used wherever the source returns None, null or undefined. */
module Wrappers {
  datatype Option<+T> = None | Some(value: T) {
    /** The value if there is one, otherwise the given default (Python's `x or d`). */
    function GetOr(default: T): T {
      match this
      case Some(v) => v
      case None => default
    }
  }
}
