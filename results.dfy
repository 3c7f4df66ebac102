/** Outcomes of operations that the Java source ends with an exception. */
module Results {

  /** A value, or the error that the source reports by throwing. */
  datatype Result<+T, +E> = Ok(value: T) | Err(error: E)

  /** An optional value; `None` where a Java parse would throw. */
  datatype Option<+T> = None | Some(value: T)

  /** `IndexOutOfBoundsException` (and its array-access subclass). */
  datatype IndexError = IndexOutOfBounds
}
