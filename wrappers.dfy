/** Failure-carrying results shared by every module: Go's `(value, ok)` and
    `(value, error)` pairs become `Option` and `Result`. */
module Wrappers {

  datatype Option<+T> = None | Some(value: T)

  datatype Result<+T, +E> = Ok(value: T) | Err(error: E)
}
