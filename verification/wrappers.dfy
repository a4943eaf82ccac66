/** Failure-compatible wrappers used throughout the model. */
module Wrappers {

  /** An optional value, as returned by a regular-expression match (`null` or a match). */
  datatype Option<+T> = None | Some(value: T)

  /** Either a value or the error a JavaScript operation would have thrown. */
  datatype Result<+T, +E> = Success(value: T) | Failure(error: E) {

    predicate IsFailure() {
      Failure?
    }

    function PropagateFailure<U>(): Result<U, E>
      requires Failure?
    {
      Failure(error)
    }

    function Extract(): T
      requires Success?
    {
      value
    }
  }
}
