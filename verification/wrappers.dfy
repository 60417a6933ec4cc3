/** Failure-compatible wrappers shared by every module of the model. */
module Wrappers {

  /** An optional value: JavaScript's `null` / `undefined` on one side, a value on the other. */
  datatype Option<+T> = None | Some(value: T) {

    predicate IsFailure() {
      None?
    }

    function PropagateFailure<U>(): Option<U>
      requires None?
    {
      None
    }

    function Extract(): T
      requires Some?
    {
      value
    }
  }

  /** The `{ success, ... }` object every server action returns: a value on
      success, the `error` message otherwise. */
  datatype Result<+T> = Success(value: T) | Failure(error: string)
}
