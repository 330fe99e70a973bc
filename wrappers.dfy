/** Failure-compatible wrappers shared by every module of the model. */
module Wrappers {

  /** `string | undefined` in the source: None is `undefined`. */
  datatype Option<+T> = None | Some(value: T)

  /** A value, or the exception the source throws instead of returning one. */
  datatype Result<+T, +E> = Ok(value: T) | Err(error: E) {
    predicate IsFailure() {
      Err?
    }

    function PropagateFailure<U>(): Result<U, E>
      requires Err?
    {
      Err(error)
    }

    function Extract(): T
      requires Ok?
    {
      value
    }
  }
}
