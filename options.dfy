/** An optional value: a pointer that may be NULL, an index that may be unset. */
module Options {
  datatype Option<T> = None | Some(value: T)
}
