/** Option, Result and Outcome: the shapes the model uses for values that may be
    absent (`undefined`, `null`) and for calls that either succeed or report an error. */
module Wrappers {

  datatype Option<+T> = None | Some(value: T)

  /** A query or call that returns a value or an error message. */
  datatype Result<+R> = Success(value: R) | Failure(error: string)

  /** A call that returns nothing but may fail with an error message. */
  datatype Outcome = Pass | Fail(error: string)
}
