/** Rust's `Option`, used for the optional fields of a user and of some messages. */
module Wrappers {

  datatype Option<+T> = None | Some(value: T)

}
