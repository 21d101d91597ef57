/** Failure-carrying values used in place of the ValueError exceptions of the island code. */
module Results {

  datatype Option<+T> = None | Some(value: T)

  /** The result of an operation that either produces a value or fails with an error. */
  datatype Result<+T, +E> = Success(value: T) | Failure(error: E)

  /** The result of a check that either passes or fails with an error. */
  datatype Outcome<+E> = Pass | Fail(error: E)
}
