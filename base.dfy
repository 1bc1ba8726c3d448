/** Option and Result values shared by every module; `Err` carries the Python
    exception that the modelled code raises. */
module Base {

  datatype Option<+T> = None | Some(value: T)

  /** The exceptions the modelled code raises itself. */
  datatype PyError =
    | ValueError(message: string)
    | KeyError(key: string)

  datatype Result<+T> = Ok(value: T) | Err(error: PyError)
}
