/** Option and Result: the model's stand-ins for Kotlin's nullable types and
    for exceptions that abort an operation. Both work with `:-`. */
module Wrappers {

  /** A Kotlin `T?`: absent or present. */
  datatype Option<+T> = None | Some(value: T) {

    predicate IsFailure() {
      None?
    }

    function PropagateFailure<U>(): Option<U>
      requires None?
    {
      None
    }

    function Extract(): T
      requires Some?
    {
      value
    }
  }

  /** The outcome of an operation that either returns a value or throws. */
  datatype Result<+R, +E> = Success(value: R) | Failure(error: E) {

    predicate IsFailure() {
      Failure?
    }

    function PropagateFailure<U>(): Result<U, E>
      requires Failure?
    {
      Failure(error)
    }

    function Extract(): R
      requires Success?
    {
      value
    }

    /** The same outcome with the error converted. */
    function MapFailure<NewE>(convert: E -> NewE): Result<R, NewE>
    {
      match this
      case Success(v) => Success(v)
      case Failure(e) => Failure(convert(e))
    }
  }
}
