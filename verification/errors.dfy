/**
 * Error values and Go's "value plus error" return convention.
 */
module Errors {

  datatype Option<+T> = None | Some(value: T)

  /** The two ways the calendar code reports a year outside the break table. */
  datatype Error =
    | ErrorInvalidYear(year: int)   // the root package's *ErrorInvalidYear
    | WrongJalaaliYear(year: int)   // the legacy package's fmt.Errorf("Wrong Jalaali year: %v")

  /**
   * A Go result pair `(value, err)`. On failure the functions modelled here
   * return Go's zero values beside the error, and callers can observe them,
   * so the value is kept even when `err` is present.
   */
  datatype Fallible<+T> = Fallible(value: T, err: Option<Error>) {
    predicate Failed() {
      err.Some?
    }
  }

  /** A calendar date as a (year, month, day) triple, in either calendar. */
  datatype Date = Date(year: int, month: int, day: int)
}
