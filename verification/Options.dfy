/** An optional value: a pointer that may be null, an argument that may be missing. */
module Options {
  datatype Option<T> = None | Some(value: T)
}
