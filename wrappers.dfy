/** The optional value shared by every module of the model: `None` stands
    for Rust's `None` and for an `Err` that carries no information. */
module Wrappers {
  datatype Option<+T> = None | Some(value: T)
}
