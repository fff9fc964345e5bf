/** Values that may be missing, and outcomes that may be errors. */
module Results {

  datatype Option<+T> = None | Some(value: T)

  /** The value-or-error pair a Go function returns. */
  datatype Result<+T, +E> = Ok(value: T) | Err(error: E) {

    predicate IsFailure() {
      Err?
    }

    function PropagateFailure<U>(): Result<U, E>
      requires Err?
    {
      Err(error)
    }

    function Extract(): T
      requires Ok?
    {
      value
    }
  }
}
