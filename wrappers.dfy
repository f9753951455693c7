/** Failure-carrying values shared by every parser and operator of the model. */
module Wrappers {

  /** A value that may be absent: Java's null, or a slot not yet filled. */
  datatype Option<+T> = None | Some(value: T)

  /** Either a result or the exception the source would raise instead. */
  datatype Result<+T, +E> = Ok(value: T) | Err(error: E)
}
