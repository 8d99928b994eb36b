/** Failure-carrying datatypes shared by the sensor and formatting models. */
module Results {

  /** An optional value: a byte that may be absent, a frame start that may not exist. */
  datatype Option<+T> = None | Some(value: T)

  /** Either a value or the error that prevented it. */
  datatype Result<+T, +E> = Ok(value: T) | Err(error: E)
}
