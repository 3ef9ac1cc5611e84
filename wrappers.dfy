/** Option and Result values, used for the source's `null`/`undefined`
    and for the backend's `{"error": ...}` replies. */
module Wrappers {

  datatype Option<+T> = None | Some(value: T)

  datatype Result<+R, +E> = Ok(value: R) | Err(error: E)
}
