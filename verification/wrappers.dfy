/** Failure-compatible result types shared by the model. */
module Wrappers {

  /** Rust's `Option<T>`: a value that may be absent. */
  datatype Option<+T> = None | Some(value: T)

  /** Rust's `Result<T, E>`, usable with Dafny's `:-` operator. */
  datatype Result<+T, +E> = Success(value: T) | Failure(error: E) {

    predicate IsFailure() {
      Failure?
    }

    function PropagateFailure<U>(): Result<U, E>
      requires Failure?
    {
      Failure(error)
    }

    function Extract(): T
      requires Success?
    {
      value
    }
  }
}
