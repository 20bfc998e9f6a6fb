/** Optional values, and the outcome of a converter operation that can raise
    a Python exception. */
module Errors {

  datatype Option<T> = None | Some(value: T)

  /** The exceptions the converter lets escape to its caller */
  datatype PyError =
    | ValueError(message: string)  // an argument with an unsupported value
    | KeyError(key: string)        // a lookup of a missing dictionary key
    | IndexError                   // a subscript past the end of a string

  datatype Result<T> = Ok(value: T) | Err(error: PyError)
}
