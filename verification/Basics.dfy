/** Types shared by the components of the model. */
module Basics {
  datatype Option<+T> = None | Some(value: T)

  /** Success, or an error whose message is not modelled. */
  datatype Result<+T> = Ok(value: T) | Err

  type byte = x: int | 0 <= x < 256
}
