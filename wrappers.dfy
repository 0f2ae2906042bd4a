/** Option, Result and Outcome, the failure-carrying shapes used throughout the model. */
module Wrappers {

  datatype Option<+T> = None | Some(value: T)

  datatype Result<+T, +E> = Success(value: T) | Failure(error: E)

  /** The completion of a statement sequence that returns nothing: it ran to the end, or threw. */
  datatype Outcome<+E> = Pass | Fail(error: E)
}
