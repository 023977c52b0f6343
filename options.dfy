/** The optional value used throughout the engine (Rust's `Option`). */
module Options {
  datatype Option<+T> = None | Some(value: T)
}
