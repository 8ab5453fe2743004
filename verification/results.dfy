/** Failure-compatible wrappers used by the rest of the model: `Option` for a
    lookup that may miss, `Result` for an operation that raises in the source. */
module Results {

  datatype Option<+T> = None | Some(value: T)

  /** `Ok(value)` is a normal return; `Err(error)` stands for the exception the
      source would raise at that point. */
  datatype Result<+T, +E> = Ok(value: T) | Err(error: E) {

    predicate IsFailure() {
      Err?
    }

    function PropagateFailure<U>(): Result<U, E>
      requires Err?
    {
      Err(error)
    }

    function Extract(): T
      requires Ok?
    {
      value
    }
  }
}
