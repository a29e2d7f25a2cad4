/** Results of calls that may find nothing or may fail. */
module Wrappers {

  datatype Option<+T> = None | Some(value: T)

  /** A call to one of the services: it returns a value, or throws. */
  datatype Result<+T> = Success(value: T) | Failure(error: string) {
    predicate IsFailure() {
      Failure?
    }

    function PropagateFailure<U>(): Result<U>
      requires Failure?
    {
      Failure(error)
    }

    function Extract(): T
      requires Success?
    {
      value
    }
  }
}
