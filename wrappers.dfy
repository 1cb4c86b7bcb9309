/** Option and Result values shared by the two models. */
module Wrappers {

  /** A value that may be absent: a missing timestamp after a left join, a dict key not yet set. */
  datatype Option<+T> = None | Some(value: T)

  /** The outcome of an operation that raises in the script. */
  datatype Result<+T, +E> = Success(value: T) | Failure(error: E)
}
