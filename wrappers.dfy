/** Option and Result: the absent values (`None`, SQL NULL) and the raised
    exceptions of the original code. */
module Wrappers {

  datatype Option<+T> = None | Some(value: T)

  datatype Result<+T, +E> = Ok(value: T) | Err(error: E)
}
