/** The optional value used for every XML text lookup and every nullable
    DataFrame cell of the roster model. */
module Wrappers {

  /** `None` stands for Python's `None` (an absent element, a NaN cell). */
  datatype Option<+T> = None | Some(value: T) {

    /** Returns the value in `Some`, or `default` when absent. */
    function GetOr(default: T): T {
      match this
      case Some(v) => v
      case None => default
    }
  }
}
