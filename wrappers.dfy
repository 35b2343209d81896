/** Option stands for a Java reference that may be null (or an empty java.util.Optional);
    Result stands for a call that either returns a value or throws an
    IllegalArgumentException carrying a message. */
module Wrappers {

  datatype Option<+T> = None | Some(value: T)

  datatype Result<+T> = Ok(value: T) | Err(message: string)
}
