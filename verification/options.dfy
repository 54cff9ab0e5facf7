/** The optional value the Rust source expresses with `Option<T>`. */
module Options {

  datatype Option<+T> = None | Some(value: T)
}
