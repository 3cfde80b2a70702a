/** Failure-compatible wrappers shared by the blog modules. */
module Wrappers {

  /** A value that may be absent: a front-matter key that was not given, a directory that does not exist. */
  datatype Option<+T> = None | Some(value: T)

  /** The outcome of an operation that can fail (a thrown error in the blog). */
  datatype Result<+T, +E> = Ok(value: T) | Err(error: E)
}
