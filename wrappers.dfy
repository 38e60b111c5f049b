/** Optional values and results shared by the modules of this model. */
module Wrappers {

  /** An optional value: SQL NULL for a column, a missing entry for a lookup. */
  datatype Option<+T> = None | Some(value: T)

  /** A value or the reason it could not be produced. */
  datatype Result<+T, +E> = Ok(value: T) | Err(error: E)
}
