/** Failure-compatible Option, used by the decoders so that `:-` propagates a short read. */
module Wrappers {

  /** `None` is a failed read; `Some` carries the value read. */
  datatype Option<+T> = None | Some(value: T) {

    predicate IsFailure() {
      None?
    }

    function PropagateFailure<U>(): Option<U>
      requires None?
    {
      None
    }

    function Extract(): T
      requires Some?
    {
      value
    }
  }
}
