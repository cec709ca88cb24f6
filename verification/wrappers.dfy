/** Optional values, standing in for the C# reference `null`. */
module Wrappers {

  /** `None` plays the part of a `null` string or an `int?` without a value. */
  datatype Option<+T> = None | Some(value: T) {

    /** The carried value, or `default` when there is none (how `null` reads as `default`). */
    function GetOr(default: T): T {
      match this
      case Some(v) => v
      case None() => default
    }
  }
}
