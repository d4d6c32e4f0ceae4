/** The shapes that the engine's fallible steps return. */
module Results {

  /** A value that may be missing. */
  datatype Option<+T> = None | Some(value: T)

  /** A computed value or the error that prevented it. */
  datatype Result<+T, +E> = Ok(value: T) | Err(error: E)

  /** Success without a value, or the error that ended a step. */
  datatype Outcome<+E> = Pass | Fail(error: E)
}
