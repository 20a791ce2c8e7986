/** Optional and fallible values used throughout the model. */
module Wrappers {

  /** A value that may be absent; `None` stands for a Java `null`. */
  datatype Option<+T> = None | Some(value: T)

  /** The outcome of an operation that either returns a value or raises. */
  datatype Result<+T, +E> = Ok(value: T) | Err(error: E)
}

/** The exceptions the task managers can raise, as data. */
module Failures {

  /**
   * `NotFound` and `TimeIntersected` are the two exception classes of the
   * current manager (each carrying the id it was raised with);
   * `NullPointer` is the NullPointerException that several code paths
   * reach by dereferencing a missing map entry or a null start time.
   */
  datatype Failure = NotFound(id: int) | TimeIntersected(id: int) | NullPointer

  /** The outcome of an operation that returns nothing. */
  datatype Outcome = Pass | Fail(failure: Failure)
}
