/** Small failure-carrying datatypes shared by the other modules. */
module Wrappers {

  datatype Option<+T> = None | Some(value: T)

  /** The outcome of an operation that the program either completes or abandons with a message. */
  datatype Result<+T> = Ok(value: T) | Err(message: string)
}
