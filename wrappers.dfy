/** The optional value that Rust's `Option` carries: `None` is the "no result" outcome. */
module Wrappers {

  datatype Option<+T> = None | Some(value: T)
}
