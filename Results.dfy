/** Failure-carrying values and the Python exceptions the driver can raise. */
module Results {

  datatype Option<+T> = None | Some(value: T)

  datatype Result<+T, +E> = Ok(value: T) | Err(error: E)

  /** The exceptions the driver's conversions let escape to their caller. */
  datatype PyError =
    | ValueError     // malformed hex text, or a negative code point for chr()
    | OverflowError  // int.to_bytes on a value that does not fit
    | IndexError     // indexing past the end of a bytes object
}
