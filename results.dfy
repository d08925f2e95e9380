/** Failure-compatible result type. The only failure the aligners can raise is the
    KeyError of a mismatch-table lookup on a symbol pair that is not in the table. */
module Results {

  datatype AlignError = KeyError

  datatype Result<+T> = Success(value: T) | Failure(error: AlignError) {

    predicate IsFailure() {
      Failure?
    }

    function PropagateFailure<U>(): Result<U>
      requires Failure?
    {
      Failure(error)
    }

    function Extract(): T
      requires Success?
    {
      value
    }
  }
}
