/** The optional value that stands for a C pointer that may be NULL, and for
    "no xtring produced" after an allocation failure. */
module Wrappers {

  datatype Option<+T> = None | Some(value: T) {

    /** The wrapped value, or `default` when there is none. */
    function GetOr(default: T): T {
      match this
      case Some(v) => v
      case None => default
    }
  }
}
