/** Outcome of an operation that the source aborts on bad input. */
module Results {
  datatype Result<+T, +E> = Ok(value: T) | Err(error: E)
}
