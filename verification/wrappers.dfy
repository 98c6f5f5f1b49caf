/** The two failure-carrying datatypes the model uses in place of the
    source's printed error messages and NULL pointers. */
module Wrappers {

  /** A value that may be absent (a NULL pointer, a search that found nothing). */
  datatype Option<+T> = None | Some(value: T)

  /** Either the value a command produced or the error it reported. */
  datatype Result<+T, +E> = Ok(value: T) | Err(error: E)
}
