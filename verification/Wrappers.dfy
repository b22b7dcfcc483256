// Result and option types shared by every module.
module Wrappers {

  /** A value that may be missing: a nil reference, or the `ok == false` of a lookup. */
  datatype Option<+T> = None | Some(value: T)

  /** A value or an error, as the `(value, err)` pairs of the program. */
  datatype Result<+T, +E> = Ok(value: T) | Err(error: E) {

    predicate IsFailure() {
      Err?
    }

    function PropagateFailure<U>(): Result<U, E>
      requires Err?
    {
      Err(error)
    }

    function Extract(): T
      requires Ok?
    {
      value
    }
  }
}
