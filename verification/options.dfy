/** The optional result the library signals with `null`. */
module Options {
  datatype Option<T> = None | Some(value: T)
}
