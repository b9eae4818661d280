/** Failure-carrying datatypes used to model the exceptions of the membership
    layer as values. */
module Wrappers {

  /** A value that may be absent; stands for a nullable Java reference. */
  datatype Option<+T> = None | Some(value: T)

  /** Either a computed value or the error that aborted the computation.
      Supports `:-` so that a thrown exception propagates to the caller. */
  datatype Result<+T, +E> = Success(value: T) | Failure(error: E) {

    predicate IsFailure() {
      Failure?
    }

    function PropagateFailure<U>(): Result<U, E>
      requires Failure?
    {
      Failure(error)
    }

    function Extract(): T
      requires Success?
    {
      value
    }
  }

  /** How a void operation ended: normally, or by throwing `error`. */
  datatype Outcome<+E> = Pass | Fail(error: E)
}
