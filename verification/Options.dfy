/** A value that may be absent, shared by the models. */
module Options {
  datatype Option<T> = None | Some(value: T)
}
