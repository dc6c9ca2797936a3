/** Failure-compatible result types shared by the modules of this model.
    `Failure` stands for a fatal log message or a thrown exception in the
    original program: the operation does not complete normally. */
module Wrappers {

  datatype Option<+T> = None | Some(value: T)

  /** Why an operation did not complete. */
  datatype Error =
    | Fatal(message: string)        // Log::Fatal, terminates the process
    | LogicError(message: string)   // throw std::logic_error
    | OutOfRange(message: string)   // std::out_of_range from a checked lookup
    | AssertionFailed(message: string) // a debug-build assert

  datatype Result<+T> = Success(value: T) | Failure(error: Error) {
    predicate IsFailure() {
      Failure?
    }

    function PropagateFailure<U>(): Result<U>
      requires Failure?
    {
      Failure(error)
    }

    function Extract(): T
      requires Success?
    {
      value
    }
  }
}
