/** Option and Result: the shapes of Rust's `Option` and `Result` used by the slice parser. */
module Wrappers {

  datatype Option<+T> = None | Some(value: T)

  /** `Result` is failure-compatible, so `:-` propagates a `Failure` as Rust's `?` does. */
  datatype Result<+R, +E> = Success(value: R) | Failure(error: E) {

    predicate IsFailure() {
      Failure?
    }

    function PropagateFailure<U>(): Result<U, E>
      requires Failure?
    {
      Failure(error)
    }

    function Extract(): R
      requires Success?
    {
      value
    }
  }
}
