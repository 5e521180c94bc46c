/** The two outcome types the other modules share. */
module Wrappers {

  datatype Option<+T> = None | Some(value: T)

  /** A value, or the tag of the error the source returns. */
  datatype Result<+T, +E> = Ok(value: T) | Err(error: E)
}
