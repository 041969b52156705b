/** The nullable values of the Kotlin source (`String?`, `Job?`) as an explicit option. */
module Wrappers {

  datatype Option<+T> = None | Some(value: T) {

    /** Kotlin's elvis operator `x ?: default`. */
    function GetOr(default: T): (r: T)
      ensures Some? ==> r == value
      ensures None? ==> r == default
    {
      match this
      case Some(v) => v
      case None => default
    }
  }
}
