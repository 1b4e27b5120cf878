/** Rust's `Option`, as the model uses it. */
module Options {

  /** Either no value, or the value `value`. */
  datatype Option<+T> = None | Some(value: T)
}
