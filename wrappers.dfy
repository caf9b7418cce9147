/** The Option, Result and Outcome types shared by the model. */
module Wrappers {

  datatype Option<+T> = None | Some(value: T)

  datatype Result<+T, +E> = Ok(value: T) | Err(error: E)

  /** A call that either returns a value or throws an exception nobody on the path catches. */
  datatype Outcome<+T> = Returned(value: T) | Threw
}
