/** Failure-carrying values used by every operation of the scheduler. */
module Results {

  /** A value that may be absent, as a Django `.first()` or a dict lookup. */
  datatype Option<+T> = None | Some(value: T)

  /** The outcome of an operation: a value, or the error it was rejected with. */
  datatype Result<+T, +E> = Ok(value: T) | Err(error: E)
}
