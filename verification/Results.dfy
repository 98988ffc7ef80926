/** Outcome types for the source's error returns and optional pointers. */
module Results {

  datatype Option<+T> = None | Some(value: T)

  datatype Result<+T> = Success(value: T) | Failure(reason: string)
  {
    predicate IsFailure() {
      Failure?
    }

    function PropagateFailure<U>(): Result<U>
      requires Failure?
    {
      Failure(reason)
    }

    function Extract(): T
      requires Success?
    {
      value
    }
  }
}
