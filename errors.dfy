/** The exceptions thrown by the containers, modelled as values. */
module Errors {
  /**
   * The standard exception classes the containers throw, with their
   * messages; BadArrayNewLength is what `new T[n]` throws for a negative n.
   */
  datatype Error =
    | InvalidArgument(msg: string)
    | OutOfRange(msg: string)
    | RuntimeError(msg: string)
    | BadArrayNewLength

  /** A value, or the exception the operation throws instead. */
  datatype Result<T> = Ok(value: T) | Err(error: Error)

  /** Completion of an operation that returns nothing, or the exception it throws. */
  datatype Outcome = Done | Fail(error: Error)
}
