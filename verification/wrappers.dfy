/** Failure-compatible wrappers shared by the editor actions. */
module Wrappers {

  /** An optional value: a folding that was found, a comment region that was detected. */
  datatype Option<+T> = None | Some(value: T)

  /** The outcome of a computation that the original code may abort with an exception. */
  datatype Result<+T, +E> = Success(value: T) | Failure(error: E)
}
