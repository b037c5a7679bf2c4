/** Result datatypes shared by the models. */
module Outcomes {

  datatype Option<+T> = None | Some(value: T)

  /** The outcome of code that may throw: a value, or an exception leaving the call. */
  datatype Outcome<+T> = Done(value: T) | Threw {
    predicate IsFailure() { Threw? }

    function PropagateFailure<U>(): Outcome<U>
      requires Threw?
    {
      Threw
    }

    function Extract(): T
      requires Done?
    {
      value
    }
  }
}
