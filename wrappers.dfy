/** Option and Result, used for SQL NULLs and for statements that can fail. */
module Wrappers {
  /** A value that may be absent (a nullable column, a missing row). */
  datatype Option<+T> = None | Some(value: T)

  /** The outcome of a statement or handler step that can raise. */
  datatype Result<+T, +E> = Ok(value: T) | Err(error: E)
}
