/** Failure-carrying values shared by the three containers: a `null` argument is
    `None`, and the two Java exceptions the containers throw become `Failure`s. */
module Wrappers {

  /** An argument that may be `null` (`None`). */
  datatype Option<+T> = None | Some(value: T)

  /** The exceptions the containers signal. */
  datatype Exception = IllegalArgumentException | NoSuchElementException

  /** The outcome of an operation that either returns a value or throws. */
  datatype Result<+T> = Success(value: T) | Failure(error: Exception)
}
