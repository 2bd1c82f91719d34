/** Option and Result types shared by every module, and the Python exceptions the modelled code can raise. */
module Wrappers {

  datatype Option<+T> = None | Some(value: T)

  /** The exceptions that escape from the modelled code.  `Raised` is the library's own `error`
      exception, carrying its formatted message. */
  datatype PyError =
    | KeyError(key: string)
    | IndexError
    | TypeError
    | ZeroDivisionError
    | ValueError
    | OverflowError
    | OSError
    | Raised(message: string)

  datatype Result<+T> = Ok(value: T) | Err(error: PyError)
}
