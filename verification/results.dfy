/** Optional values and success/failure results shared by the correction pipeline. */
module Results {

  /** A value that may be absent (Python's `None`). */
  datatype Option<+T> = None | Some(value: T)

  /** The outcome of a step that may raise: `Success` carries the value,
      `Failure` carries what made the step fail. */
  datatype Result<+T, +E> = Success(value: T) | Failure(error: E)
}
