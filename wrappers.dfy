/** The optional value used wherever a Python expression may yield None. */
module Wrappers {

  datatype Option<+T> = None | Some(value: T) {

    /** The value, or the default when there is none (`x if x is not None else d`). */
    function GetOr(default: T): T {
      match this
      case Some(v) => v
      case None => default
    }
  }
}
