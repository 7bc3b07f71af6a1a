/** An optional value, the model of Rust's `Option<T>` used by all three solvers. */
module Options {
  datatype Option<+T> = None | Some(value: T)
}
