/** The outcomes of a Python call: a value, or the exception it raises. */
module PyResult {

  datatype Option<+T> = None | Some(value: T)

  /** The exceptions the conversion can raise. */
  datatype Error =
    | KeyError(key: string)
    | ValueError(message: string)
    | ZeroDivisionError

  datatype Result<+T> = Ok(value: T) | Err(error: Error)
}
