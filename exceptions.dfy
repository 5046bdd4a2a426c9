/** The exceptions the core throws, and the result types that carry them. */
module Exceptions {

  /** A Java exception escaping an operation of the core. */
  datatype Thrown =
    | GradleException(message: string)
    /** `new RuntimeException(...)`; the message is "" where the source passes none. */
    | RuntimeException(message: string)
    | NullPointerException
    | StringIndexOutOfBoundsException

  /** The value an operation returns, or the exception it throws. */
  datatype Result<+T> = Success(value: T) | Failure(error: Thrown)

  /** Completion of an operation that returns nothing. */
  datatype Outcome = Pass | Fail(error: Thrown)

  datatype Option<+T> = None | Some(value: T)
}
