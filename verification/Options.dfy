/** Optional values and fallible results shared by every component. */
module Options {

  /** A dictionary lookup, an optional attribute, or Python's None. */
  datatype Option<+T> = None | Some(value: T)

  /** The outcome of an operation that either returns or raises. */
  datatype Result<+T, +E> = Ok(value: T) | Err(error: E)
}
