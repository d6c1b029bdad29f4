/** Kotlin's nullable `T?`, shared by the other modules. */
module Wrappers {

  /** A value that may be missing, as Kotlin's nullable `T?`. */
  datatype Option<+T> = None | Some(value: T) {

    /** The carried value, or `default` when there is none (Kotlin's `?:`). */
    function GetOr(default: T): T {
      match this
      case Some(v) => v
      case None => default
    }
  }
}
