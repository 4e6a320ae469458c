/** The optional value: a nil pointer, a missing entry or a failed lookup. */
module Options {
  datatype Option<T> = None | Some(value: T)
}
