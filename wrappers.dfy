/** Optional values and results with failure, usable with `:-`. */
module Wrappers {

  /** A value that may be absent: the model of a .NET null reference or of a failed parse. */
  datatype Option<+T> = None | Some(value: T)

  /** The outcome of an operation that can throw: Failure(e) stands for an exception of kind e. */
  datatype Result<+T, +E> = Success(value: T) | Failure(error: E) {

    predicate IsFailure() {
      Failure?
    }

    function PropagateFailure<U>(): Result<U, E>
      requires Failure?
    {
      Failure(error)
    }

    function Extract(): T
      requires Success?
    {
      value
    }
  }
}
