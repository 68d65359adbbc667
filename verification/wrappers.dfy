/** Failure-compatible result type used to model the exceptions the generator
    can raise: a Java method that throws becomes a `Failure`. */
module Wrappers {

  datatype Result<+R, +E> = Success(value: R) | Failure(error: E) {

    predicate IsFailure() {
      Failure?
    }

    function PropagateFailure<U>(): Result<U, E>
      requires Failure?
    {
      Failure(error)
    }

    function Extract(): R
      requires Success?
    {
      value
    }
  }
}
