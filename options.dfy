/** Rust's `Option`, used wherever the source returns or stores an optional value. */
module Options {
  datatype Option<+T> = None | Some(value: T)
}
