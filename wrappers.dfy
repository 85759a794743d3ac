/** Failure-carrying results and the error kinds the roster engine signals.
    Every `throw` of the Java code becomes a `Fail`/`Failure` value here. */
module Wrappers {

  datatype Option<+T> = None | Some(value: T)

  datatype Result<+T, +E> = Success(value: T) | Failure(error: E)

  datatype Outcome<+E> = Pass | Fail(error: E)

  /** One constructor per exception the core raises, carrying the offending value. */
  datatype Error =
    | InvalidName(name: string)                  // IllegalArgumentException "Invalid name"
    | InvalidEmail(email: string)                // IllegalArgumentException "Invalid email"
    | UnparsableGrade                            // NumberFormatException from Double.parseDouble
    | InvalidGrade(grade: real)                  // IllegalArgumentException "Invalid grade"
    | InvalidStatus(status: string)              // IllegalArgumentException "Invalid status"
    | UnparsableDate                             // DateTimeParseException from LocalDate.parse
    | DuplicateEmail(email: string)              // DuplicateValueException "Duplicate email"
    | EmptyString                                // center: "Can't center the empty string."
    | LengthTooSmall(len: int, strLength: nat)   // center: "Length (..) should be > than string length (..)."
}
