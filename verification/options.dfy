/**
  A value that may be missing: JavaScript's `undefined`, an absent object field or a
  key that a parsed file does not have.
 */
module Options {

  datatype Option<+T> = None | Some(value: T) {

    /** `x || fallback` and `x ?? fallback` for a value that is either present or not. */
    function ValueOr(fallback: T): T {
      if Some? then value else fallback
    }
  }
}
