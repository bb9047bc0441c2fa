/** Optional values, and results that are either a value or the error the original throws. */
module Results {

  datatype Option<+T> = None | Some(value: T)

  datatype Result<+T, +E> = Ok(value: T) | Err(error: E) {

    predicate IsFailure() {
      Err?
    }

    function PropagateFailure<U>(): Result<U, E>
      requires Err?
    {
      Err(error)
    }

    function Extract(): T
      requires Ok?
    {
      value
    }
  }

  /** Two outcomes a caller cannot tell apart, except by the text of an error. */
  ghost predicate SameOutcome<T, E>(r: Result<T, E>, s: Result<T, E>) {
    (r.Err? && s.Err?) || (r.Ok? && r == s)
  }
}
