/** The absence-or-value result that every operation of the selection library returns. */
module Wrappers {

  /**
   * `None` is the library's only error signal ("no result"). The members
   * below let `:-` propagate it, as `?` does in the library.
   */
  datatype Option<+T> = None | Some(value: T) {

    predicate IsFailure() {
      None?
    }

    function PropagateFailure<U>(): Option<U>
      requires None?
    {
      None
    }

    function Extract(): T
      requires Some?
    {
      value
    }
  }
}
