/** The optional-value datatype used for "no match", "no error" and "does not
    parse"; it supports Dafny's `:-` so that a chain of parsing steps stops at
    the first one that fails. */
module Wrappers {

  datatype Option<+T> = None | Some(value: T) {

    predicate IsFailure() {
      None?
    }

    function PropagateFailure<U>(): Option<U>
      requires None?
    {
      None
    }

    function Extract(): T
      requires Some?
    {
      value
    }
  }
}
