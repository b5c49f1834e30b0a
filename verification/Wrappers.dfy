/** The result types the modules share. */
module Wrappers {

  datatype Option<+T> = None | Some(value: T)

  /** A value, or a refusal whose wording is not modelled. */
  datatype Result<+T> = Ok(value: T) | Err
}
