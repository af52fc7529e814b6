/** Result and Option types, and the Python exception classes that the modelled
    code can raise. */
module Wrappers {

  datatype Option<T> = None | Some(value: T)

  /** The exception classes raised by the indexing code: a missing dictionary key,
      a bad unpacking or a bad int() literal or a negative seek, and a matrix index
      out of range. */
  datatype Error = KeyError | ValueError | IndexError

  datatype Result<T> = Ok(value: T) | Err(error: Error)
}
