/** Option, the usual failure-compatible wrapper (Rust's Option<T>). */
module Wrappers {

  datatype Option<+T> = None | Some(value: T)
}
