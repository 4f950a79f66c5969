/** Failure-carrying values shared by the whole model.

    The Java code signals two kinds of failure by exception: an
    IllegalArgumentException for a null or malformed argument, and the
    checked EnrollmentException for a broken business rule. Both are
    constructors of Error here, and every operation that can throw returns
    an Outcome or a Result instead. */
module Results {

  /** The two exception kinds, each with the message the code attaches. */
  datatype Error =
    | IllegalArgument(message: string)
    | EnrollmentFailure(message: string)

  /** The result of an operation that returns nothing (Java `void`). */
  datatype Outcome = Pass | Fail(error: Error)

  /** The result of an operation that returns a value or throws. */
  datatype Result<+T> = Success(value: T) | Failure(error: Error)

  /** A Java reference to an immutable value that may be null. */
  datatype Option<+T> = None | Some(value: T)
}
