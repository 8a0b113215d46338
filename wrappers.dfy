/** Failure-carrying values shared by the other modules. */
module Wrappers {

  datatype Option<+T> = None | Some(value: T)

  /** A computation that either yields a value or stops with an error,
      the way an uncaught Python exception ends a generator script. */
  datatype Result<+R, +E> = Success(value: R) | Failure(error: E)
}
