/** The Python exceptions the modelled code raises or lets escape, and the
    result of an operation that may raise one or return `None`. */
module Exceptions {
  datatype Failure =
    | ValueError(reason: string)
    | RuntimeError(reason: string)
    | ConnectionError(reason: string)
    | OSError(reason: string)
    | IndexError(reason: string)
    | AssertionError(reason: string)
    | StructError(reason: string)
    | KeyError(reason: string)
    /** werkzeug's HTTP exceptions, which Flask answers with their status. */
    | Unauthorized(reason: string)
    | NotFound(reason: string)

  datatype Result<T> = Ok(value: T) | Err(error: Failure)

  /** A value or Python's `None`. */
  datatype Option<T> = None | Some(value: T)
}
