/** Optional values and error results shared by every module of the model. */
module Wrappers {

  /** A value that may be absent: the model of a C# null or a JavaScript undefined. */
  datatype Option<+T> = None | Some(value: T)

  /** The outcome of an operation that either yields a value or fails with an error. */
  datatype Result<+T, +E> = Ok(value: T) | Err(error: E)

  /** The outcome of an operation that yields nothing or fails with an error. */
  datatype Outcome<+E> = Pass | Fail(error: E)
}
