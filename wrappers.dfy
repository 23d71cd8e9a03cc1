/** Option and Result, the two failure-carrying wrappers the model uses in place
    of Python's `None` results and raised exceptions. */
module Wrappers {

  datatype Option<+T> = None | Some(value: T)

  /** `Err` stands for an exception that the Python code raises and does not catch. */
  datatype Result<+T, +E> = Ok(value: T) | Err(error: E)
}
