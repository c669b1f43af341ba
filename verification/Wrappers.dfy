/** Failure-compatible wrappers used for Java's nullable references and thrown exceptions. */
module Wrappers {

  /** A Java reference that may be null. */
  datatype Option<+T> = None | Some(value: T)

  /** A value, or the exception that was thrown instead of returning one. */
  datatype Result<+T, +E> = Ok(value: T) | Err(error: E)

  /** A void operation that either completes or throws. */
  datatype Outcome<+E> = Pass | Fail(error: E)
}
