/** Option and Result wrappers used throughout the model. A JavaScript `throw`
    becomes a `Failure` carrying the error's message; `null` becomes `None`. */
module Outcomes {

  datatype Option<+T> = None | Some(value: T)

  /** A computation that returns a value or throws; `:-` propagates the
      first failure, as an uncaught exception propagates. */
  datatype Result<+T, +E> = Success(value: T) | Failure(error: E) {
    predicate IsFailure() {
      Failure?
    }

    function PropagateFailure<U>(): Result<U, E>
      requires Failure?
    {
      Failure(error)
    }

    function Extract(): T
      requires Success?
    {
      value
    }
  }
}
