/** The outcome of a metric computation: a value, or the exception the
    Python code raises instead. */
module Results {

  datatype Result<+T, +E> = Ok(value: T) | Err(error: E)

}
