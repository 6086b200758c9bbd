/** Results of operations that may throw. */
module Outcomes {

  /** The exceptions the library raises, by kind. */
  datatype Error =
    | InvalidArgument
    | CheatAttempt
    | IllegalState
    | DivisionByZero
    | OutOfRange

  datatype Outcome<+T> =
    | Returned(value: T)
    | Threw(error: Error)
  {
    predicate IsFailure() {
      Threw?
    }

    function PropagateFailure<U>(): Outcome<U>
      requires Threw?
    {
      Threw(error)
    }

    function Extract(): T
      requires Returned?
    {
      value
    }
  }
}
