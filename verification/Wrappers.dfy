/** Results and optional values shared by every component of the model. */
module Wrappers {

  datatype Option<+T> = None | Some(value: T)

  /** The outcome of an operation the program answers with either a value or a named refusal. */
  datatype Result<+T, +E> = Ok(value: T) | Err(error: E)
}
