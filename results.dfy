/** Fallible results, as the firmware's drivers return them. */
module Results {

  datatype Result<+T, +E> = Ok(value: T) | Err(error: E)
}
