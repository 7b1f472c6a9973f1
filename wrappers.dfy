/** Rust's `Option`, used for absent values and for the outcomes the source turns into a panic. */
module Wrappers {
  datatype Option<+T> = None | Some(value: T)
}
