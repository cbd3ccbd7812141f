/** Failure-carrying return values shared by the modules of this model. */
module Outcomes {

  /** A value that may be missing, used for partial lookups and decoders. */
  datatype Option<+T> = None | Some(value: T)

  /** Either a computed value or the error the operation reports instead. */
  datatype Result<+T, +E> = Ok(value: T) | Err(error: E)
}
