/** Failure-compatible result types shared by the other modules: an absent
    Java reference becomes `None`, a thrown exception becomes `Failure`. */
module Wrappers {

  /** A value that may be missing (a Java reference that may be null). */
  datatype Option<+T> = None | Some(value: T)

  /** Either the computed value or the error that stopped the computation. */
  datatype Result<+T, +E> = Success(value: T) | Failure(error: E) {

    predicate IsFailure() {
      Failure?
    }

    function PropagateFailure<U>(): Result<U, E>
      requires Failure?
    {
      Failure(error)
    }

    function Extract(): T
      requires Success?
    {
      value
    }
  }

  /** The outcome of a check that returns nothing when it passes. */
  datatype Outcome<+E> = Pass | Fail(error: E)
}
