/** Small value wrappers shared by the modules of this model. */
module Wrappers {

  /** A value that may be absent; stands for a nullable pointer. */
  datatype Option<+T> = None | Some(value: T)

  /** The outcome of an operation that can fail. */
  datatype Result<+T, +E> = Ok(value: T) | Err(error: E)
}
