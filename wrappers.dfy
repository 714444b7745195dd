/** Option and Result datatypes for the optional search criteria and the
    error returns of the lookup. */
module Wrappers {

  datatype Option<+T> = None | Some(value: T)

  datatype Result<+T, +E> = Ok(value: T) | Err(error: E)
}
