/** Optional values and results with a failure case, usable with `:-`. */
module Wrappers {

  /** Swift's `T?`. */
  datatype Option<+T> = None | Some(value: T)

  /** The outcome of a Swift function that `throws`: a value, or the error it threw. */
  datatype Result<+T, +E> = Success(value: T) | Failure(error: E) {

    predicate IsFailure() {
      Failure?
    }

    function PropagateFailure<U>(): Result<U, E>
      requires Failure?
    {
      Failure(error)
    }

    function Extract(): T
      requires Success?
    {
      value
    }
  }
}
