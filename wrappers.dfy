/** Failure-carrying values shared by the modules of this project. */
module Wrappers {

  /** A value that may be absent: a missing DOM element, a parse that failed. */
  datatype Option<+T> = None | Some(value: T)

  /** A value, or the reason it could not be produced. */
  datatype Result<+T, +E> = Ok(value: T) | Err(error: E)
}
