// The optional value that the readers and searches return.

module Options {
  datatype Option<T> = None | Some(value: T)
}
