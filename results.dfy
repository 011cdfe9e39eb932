/** Success/failure values shared by the codecs, the pipeline and the handlers. */
module Results {

  datatype Option<+T> = None | Some(value: T)

  /** A Go `(value, error)` return pair, with the error path made explicit. */
  datatype Result<+T, +E> = Ok(value: T) | Err(error: E)

  /** An 8-bit unsigned value (Go `byte` / `uint8`). */
  type Byte = b: int | 0 <= b < 256
}
