/** The optional value used for Kotlin's nullable types (`T?`). */
module Wrappers {

  /** `None` stands for Kotlin's `null`, `Some(v)` for a present value. */
  datatype Option<+T> = None | Some(value: T) {

    /** The value, or `default` when absent: Kotlin's elvis operator `?:`. */
    function GetOr(default: T): T {
      match this
      case Some(v) => v
      case None => default
    }
  }
}
