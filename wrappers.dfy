/** Option and Result values standing in for Kotlin's nullable references and
    for the exceptions the codecs throw. */
module Wrappers {

  datatype Option<+T> = None | Some(value: T)

  datatype Result<+T, +E> = Ok(value: T) | Err(error: E)
}
