/** Java's null and its exceptions, as values. */
module Wrappers {

  /** A nullable reference: None stands for Java's null. */
  datatype Option<+T> = None | Some(value: T) {
    function GetOr(default: T): T {
      match this
      case Some(v) => v
      case None => default
    }
  }

  /** The exceptions the modelled code throws or catches. */
  datatype Error =
    | IllegalArgument(message: string)
    | IllegalState(message: string)
    | NullPointer
    | NoSuchElement
    | RemoteFailure
    | StoreFailure

  /** A call that either returns a value or throws. */
  datatype Result<+R> = Success(value: R) | Failure(error: Error) {
    predicate IsFailure() {
      Failure?
    }

    function PropagateFailure<U>(): Result<U>
      requires Failure?
    {
      Failure(error)
    }

    function Extract(): R
      requires Success?
    {
      value
    }
  }

  /** A void call that either returns normally or throws. */
  datatype Outcome = Pass | Fail(error: Error)
}
