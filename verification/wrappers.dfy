/** The result types of the model. */
module Wrappers {

  /** The result of a `checked_*` operation: a value, or nothing on failure. */
  datatype Option<+T> = None | Some(value: T) {

    /** What `.unwrap()` gives: the value, or the given panic. */
    function ToResult<E>(error: E): Result<T, E> {
      match this
      case Some(v) => Success(v)
      case None => Failure(error)
    }
  }

  /** A value or an error; usable with `:-`. */
  datatype Result<+T, +E> = Success(value: T) | Failure(error: E) {

    predicate IsFailure() {
      Failure?
    }

    function PropagateFailure<U>(): Result<U, E>
      requires Failure?
    {
      Failure(error)
    }

    function Extract(): T
      requires Success?
    {
      value
    }
  }

  /** Success without a value, or an error: the shape of a dispatch `Result` in the source. */
  datatype Outcome<+E> = Pass | Fail(error: E)
}
