/** Outcomes of the calculator's guarded operations. */
module Results {

  /** Python's `ValueError`, carrying the message the calculator raises. */
  datatype Error = ValueError(message: string)

  /** Either the value an operation returns or the exception it raises. */
  datatype Result<T> = Ok(value: T) | Err(error: Error)
}
