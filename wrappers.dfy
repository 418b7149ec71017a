/** The optional-value type used for Rust's `Option` and for fallible results. */
module Wrappers {

  datatype Option<+T> = None | Some(value: T)
}
