/** Failure-compatible result types and the exception kinds the modelled code throws. */
module Errors {

  /** The exception classes the source raises, by kind. */
  datatype Error =
    | IndexOutOfRange      // IndexOutOfRangeException
    | Argument             // ArgumentException
    | ArgumentNull         // ArgumentNullException
    | ArgumentOutOfRange   // ArgumentOutOfRangeException
    | NotPositive          // the argument guard's rejection of a count or length below 1
    | InvalidOperation     // InvalidOperationException

  datatype Option<+T> = None | Some(value: T)

  /** The value of a call that either returns normally or throws. */
  datatype Result<+T> = Ok(value: T) | Err(error: Error) {
    predicate IsFailure() { Err? }

    function PropagateFailure<U>(): Result<U>
      requires Err?
    {
      Err(error)
    }

    function Extract(): T
      requires Ok?
    {
      value
    }
  }

  /** The outcome of a validation step that returns nothing. */
  datatype Outcome = Pass | Fail(error: Error) {
    predicate IsFailure() { Fail? }

    function PropagateFailure<U>(): Result<U>
      requires Fail?
    {
      Err(error)
    }
  }
}
