/** The optional result of an operation that can fail. */
module Options {
  datatype Option<+T> = None | Some(value: T)
}
