/** Small failure-carrying datatypes shared by the marketplace model. */
module Wrappers {

  /** A value that may be absent: a missing JSON field, a NULL column, an unparsable number. */
  datatype Option<+T> = None | Some(value: T)

  /** A computation that either yields a value or raises an error. */
  datatype Result<+T, +E> = Ok(value: T) | Err(error: E)
}
