/** Failure-carrying results for the notification helpers: an optional value,
    the Python exceptions the helpers can raise, and pass/fail outcomes. */
module Outcomes {

  /** A value that may be absent (Python's `None`). */
  datatype Option<T> = None | Some(value: T)

  /** The exceptions the modelled helpers raise. */
  datatype Error =
    | KeyError(key: string)          // a dict lookup or `pop` on a missing key
    | ValueError(message: string)    // `range()` called with a zero step

  /** Outcome of an operation that works by side effect. */
  datatype Outcome = Pass | Fail(error: Error)

  /** Outcome of an operation that produces a value. */
  datatype Result<T> = Ok(value: T) | Err(error: Error)
}
