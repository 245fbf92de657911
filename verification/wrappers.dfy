/** Failure-compatible Option used for the source's `None` results and for the
    exceptions it raises (an exception is modelled as `None` or as a dedicated
    error variant, never as a precondition). */
module Wrappers {

  datatype Option<+T> = None | Some(value: T) {

    predicate IsFailure() {
      None?
    }

    function PropagateFailure<U>(): Option<U>
      requires None?
    {
      None
    }

    function Extract(): T
      requires Some?
    {
      value
    }

    /** `value or default`, as in Python's `x or d` for an unset field */
    function GetOr(default: T): T {
      match this
      case Some(v) => v
      case None => default
    }
  }
}
