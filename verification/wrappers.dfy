/** The `Result` type of the error paths: a thrown error becomes a `Failure` value. */
module Wrappers {

  /** Either a computed value or the error that replaced it. */
  datatype Result<+T, +E> = Success(value: T) | Failure(error: E) {

    predicate IsFailure() {
      Failure?
    }

    function PropagateFailure<U>(): Result<U, E>
      requires Failure?
    {
      Failure(error)
    }

    function Extract(): T
      requires Success?
    {
      value
    }
  }
}
