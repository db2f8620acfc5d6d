/** Shared result types for the two components. */
module Common {

  datatype Option<T> = None | Some(value: T)

  /** The Python exceptions the modelled code raises. */
  datatype Error =
    | ValueError(message: string)
    | ArgumentTypeError(message: string)
    | AssertionError(message: string)
    | KeyError(key: string)

  datatype Result<T> = Ok(value: T) | Err(error: Error)
}
