/** Failure-compatible wrappers shared by the metadata tree and the spill-file reader. */
module Wrappers {

  datatype Option<T> = None | Some(value: T)

  /** Either a value or the error that the Java code would have thrown. */
  datatype Result<T, E> = Success(value: T) | Failure(error: E) {
    predicate IsFailure() { Failure? }

    function PropagateFailure<U>(): Result<U, E>
      requires Failure?
    {
      Failure(error)
    }

    function Extract(): T
      requires Success?
    {
      value
    }
  }

  /** The outcome of an operation that returns nothing but may throw. */
  datatype Outcome<E> = Pass | Fail(error: E)
}
