/** Success-or-error values shared by the register layer and the sensor engine. */
module Results {

  /** The outcome of an operation that either yields a value or fails with an error. */
  datatype Result<+T, +E> = Ok(value: T) | Err(error: E)
}
