/** The optional value used wherever the scripts read something that may be
    missing: a `localStorage` key, a `querySelector` hit, an optional argument. */
module Wrappers {

  datatype Option<+T> = None | Some(value: T) {

    /** The value if present, otherwise `default` (the scripts' `x || default`
        when `x` can only be missing, never falsy). */
    function GetOr(default: T): T {
      match this
      case Some(v) => v
      case None => default
    }
  }
}
