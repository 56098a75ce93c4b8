/** Present-or-absent values. */
module Wrappers {

  /** A result that may be missing: `None` stands for a JavaScript `null` or
      `undefined`, or for an argument the caller left out. */
  datatype Option<T> = None | Some(value: T) {

    /** `x || fallback` for an `x` that is either a value or missing. */
    function GetOr(fallback: T): T
    {
      if Some? then value else fallback
    }
  }
}
