/** Failure-compatible wrappers: an optional value, and a value-or-error result. */
module Wrappers {

  /** A value that may be absent; Ruby's `nil` for a hash key that was never set. */
  datatype Option<+T> = None | Some(value: T)

  /** The outcome of a computation that may raise instead of returning. */
  datatype Result<+T, +E> = Success(value: T) | Failure(error: E)
}
