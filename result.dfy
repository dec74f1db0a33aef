/** The outcome of an operation that the driver may abandon by raising, and
    the outcome of a regex search that may find nothing. */
module Results {
  datatype Result<+T, +E> = Ok(value: T) | Err(error: E)

  datatype Option<+T> = None | Some(value: T)
}
