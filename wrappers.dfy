/** Failure-compatible result and option types used across the model. */
module Wrappers {

  datatype Option<T> = None | Some(value: T)

  /** A value, or the message of the exception the source would throw. */
  datatype Result<T> = Ok(value: T) | Err(message: string) {

    predicate IsFailure() {
      Err?
    }

    function PropagateFailure<U>(): Result<U>
      requires Err?
    {
      Err(message)
    }

    function Extract(): T
      requires Ok?
    {
      value
    }
  }
}
