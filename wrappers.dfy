/** Option and Result values used for the model's error paths. */
module Wrappers {

  datatype Option<+T> = None | Some(value: T)

  /** `Err` stands for a Python exception escaping the operation. */
  datatype Result<+T, +E> = Ok(value: T) | Err(error: E)
}
