/** Kotlin's nullable values and thrown exceptions, written as explicit sum types. */
module Wrappers {

  /** `T?` in Kotlin: either no value (`null`) or a value. */
  datatype Option<+T> = None | Some(value: T) {

    /** Kotlin's elvis operator `x ?: default`. */
    function GetOr(default: T): T {
      match this
      case Some(v) => v
      case None => default
    }

    /** Kotlin's `x ?: y` where `y` is itself nullable. */
    function OrElse(other: Option<T>): Option<T> {
      match this
      case Some(_) => this
      case None => other
    }
  }

  /** A call that either returns a value or throws the exception `error`. */
  datatype Result<+T, +E> = Ok(value: T) | Err(error: E)
}
