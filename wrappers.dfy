/** Optional values and results with an error, as the Rust `Option` and `Result` types. */
module Wrappers {

  datatype Option<+T> = None | Some(value: T)

  /** A result; `:-` propagates a failure, as Rust's `?` operator does. */
  datatype Result<+T, +E> = Success(value: T) | Failure(error: E) {
    predicate IsFailure() {
      Failure?
    }

    function PropagateFailure<U>(): Result<U, E>
      requires Failure?
    {
      Failure(error)
    }

    function Extract(): T
      requires Success?
    {
      value
    }
  }
}
