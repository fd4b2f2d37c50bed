/** Failure-carrying results shared by every module of the model. */
module Wrappers {

  datatype Option<+T> = None | Some(value: T)

  /** The exception kinds the restriction engine raises. */
  datatype Error =
    | InvalidRequest        // exceptions::invalid_request_exception: a user error
    | UnsupportedOperation  // exceptions::unsupported_operation_exception: a missing planner feature
    | LogicError            // std::logic_error, a failed assert, or undefined behaviour in the source
    | RuntimeError          // std::runtime_error

  datatype Result<+T> = Ok(value: T) | Err(error: Error) {
    predicate IsFailure() { Err? }

    function PropagateFailure<U>(): Result<U>
      requires Err?
    {
      Err(error)
    }

    function Extract(): T
      requires Ok?
    {
      value
    }
  }

  /** A Result without a value, for operations that only succeed or throw. */
  datatype Outcome = Pass | Fail(error: Error) {
    predicate IsFailure() { Fail? }

    function PropagateFailure(): Outcome
      requires Fail?
    {
      this
    }
  }
}
