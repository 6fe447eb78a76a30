/** Option and Result types used for absent values and for the error paths
    of the modelled operations (the Python code raises exceptions instead). */
module Wrappers {

  /** An optional value: a missing tag, a source that cannot be opened, a failed parse. */
  datatype Option<+T> = None | Some(value: T)

  /** Either a value or the error the Python code would have raised. */
  datatype Result<+T, +E> = Ok(value: T) | Err(error: E)
}
