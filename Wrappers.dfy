/** Failure-carrying result types shared by the model. */
module Wrappers {

  /** A value that may be absent: the model's stand-in for a null pointer
      or for `std::string::npos`. */
  datatype Option<+T> = None | Some(value: T) {
    predicate IsFailure() { None? }

    function PropagateFailure<U>(): Option<U>
      requires None?
    {
      None
    }

    function Extract(): T
      requires Some?
    {
      value
    }
  }

  /** A result or the error the source would throw or report. */
  datatype Result<+R, +E> = Ok(value: R) | Err(error: E) {
    predicate IsFailure() { Err? }

    function PropagateFailure<U>(): Result<U, E>
      requires Err?
    {
      Err(error)
    }

    function Extract(): R
      requires Ok?
    {
      value
    }
  }

  /** Success, or the first error found (a check that returns or throws). */
  datatype Outcome<+E> = Pass | Fail(error: E)
}
