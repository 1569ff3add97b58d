/** The one shared wrapper type: Java's nullable references are modelled as Option. */
module Basics {

  datatype Option<+T> = None | Some(value: T) {

    /** The value, or `default` when there is none (Java's `x == null ? default : x`). */
    function GetOr(default: T): T {
      match this
      case Some(v) => v
      case None => default
    }
  }
}
