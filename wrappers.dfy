/** The optional value used throughout the model: Rust's `Option`, and the
    "did not apply" or "would panic" outcome of a lookup. */
module Wrappers {
  datatype Option<+T> = None | Some(value: T)
}
