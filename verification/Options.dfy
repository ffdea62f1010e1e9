/** A value that may be absent, such as a pointer that may be null. */
module Options {
  datatype Option<T> = None | Some(value: T)
}
