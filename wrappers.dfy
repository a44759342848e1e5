/** Option and Result values used where the source would read `undefined` or throw. */
module Wrappers {

  datatype Option<+T> = None | Some(value: T)

  /** A Result is failure-compatible, so `:-` can propagate a failure. */
  datatype Result<+R, +E> = Success(value: R) | Failure(error: E) {

    predicate IsFailure() {
      Failure?
    }

    function PropagateFailure<U>(): Result<U, E>
      requires Failure?
    {
      Failure(error)
    }

    function Extract(): R
      requires Success?
    {
      value
    }
  }
}
