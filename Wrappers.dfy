/** Option and Result: absent values and the outcome of a step that can raise. */
module Wrappers {

  datatype Option<+T> = None | Some(value: T)

  /** `Err` stands for an exception the Python code raises and does not catch. */
  datatype Result<+T, +E> = Ok(value: T) | Err(error: E)
}
