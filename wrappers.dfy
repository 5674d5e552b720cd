/** Optional values and step outcomes shared by every transformer. */
module Wrappers {

  /** A value that may be absent: Python's None, or pandas' NaN, for one field. */
  datatype Option<+T> = None | Some(value: T)

  /** The outcome of a whole transformation step: a value, or the reason it raised. */
  datatype Result<+T> = Ok(value: T) | Fail(reason: string)
}
