/** A value that may be absent, as a null pointer stands for in the C sources. */
module Options {
  datatype Option<+T> = None | Some(value: T)
}
