/** Failure-carrying values shared by every part of the grid model. */
module Results {

  /** A value that may be absent (`null`/`undefined` in the widget). */
  datatype Option<+T> = None | Some(value: T)

  /** The outcome of an operation that can raise an exception. */
  datatype Result<+T, +E> = Ok(value: T) | Err(error: E)

  /**
   * Fatal conditions of the grid itself: a failed `goog.asserts` check, or
   * the emergency brake that stops runaway row materialisation.
   */
  datatype Fault = AssertionFailed | EmergencyBrakes
}
