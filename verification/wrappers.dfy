/** The optional-value datatype used wherever JavaScript yields `undefined` or `null`. */
module Wrappers {

  /** `None` stands for JavaScript's `undefined`/`null`; `Some(v)` for a present value. */
  datatype Option<+T> = None | Some(value: T) {

    /** Returns the value, or `default` when absent (JavaScript's `x || default` on a non-falsy `x`). */
    function GetOr(default: T): T {
      match this
      case Some(v) => v
      case None => default
    }
  }
}
