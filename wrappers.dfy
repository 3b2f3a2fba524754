/** Result and Option: the two failure-carrying types the model uses in place of
    Rust's `Result<T, E>` and `Option<T>`. */
module Wrappers {

  datatype Option<+T> = None | Some(value: T)

  datatype Result<+T, +E> = Ok(value: T) | Err(error: E)
}
