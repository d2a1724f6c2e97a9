/** The optional value and the success-or-error value used throughout. */
module Wrappers {
  datatype Option<+T> = None | Some(value: T)

  /** A success or an error; `:-` returns the error to the caller. */
  datatype Result<+T, +E> = Ok(value: T) | Err(error: E) {
    predicate IsFailure() { Err? }

    function PropagateFailure<U>(): Result<U, E>
      requires Err?
    {
      Err(error)
    }

    function Extract(): T
      requires Ok?
    {
      value
    }
  }
}
