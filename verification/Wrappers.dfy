/** Result shapes shared by every module: a lookup that may miss, a call that may fail. */
module Wrappers {
  datatype Option<+T> = None | Some(value: T)

  /** A Go `(value, error)` pair. The error's text is not modelled, only its presence. */
  datatype Result<+T> = Ok(value: T) | Err
}
