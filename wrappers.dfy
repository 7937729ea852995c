/** The optional value and the success-or-error result the other modules return. */
module Wrappers {

  datatype Option<T> = None | Some(value: T)

  /** A value, or the error an operation raises instead of returning one. */
  datatype Result<T, E> = Success(value: T) | Failure(error: E)
  {
    predicate IsFailure()
    {
      Failure?
    }

    function PropagateFailure<U>(): Result<U, E>
      requires Failure?
    {
      Failure(error)
    }

    function Extract(): T
      requires Success?
    {
      value
    }
  }
}
