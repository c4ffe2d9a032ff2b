/** Optional values and the two Python exceptions the core can raise. */
module Wrappers {

  /** Python's `None` or a value. */
  datatype Option<+T> = None | Some(value: T)

  /** The exceptions the modelled code lets escape. */
  datatype PyError =
    | KeyError   // a dictionary lookup of a missing key
    | TypeError  // iterating over `None`

  /** A call that either returns a value or raises. */
  datatype Result<+T> = Ok(value: T) | Err(error: PyError)
}
