/** Option and Result values. They stand in for Python's `None` returns and for
    the exceptions the modelled code raises. */
module Results {

  datatype Option<+T> = None | Some(value: T)

  /** `Err` carries what Python would raise. Failure-compatible, so `:-` works. */
  datatype Result<+T, +E> = Ok(value: T) | Err(error: E) {

    predicate IsFailure() {
      Err?
    }

    function PropagateFailure<U>(): Result<U, E>
      requires Err?
    {
      Err(error)
    }

    function Extract(): T
      requires Ok?
    {
      value
    }
  }
}
