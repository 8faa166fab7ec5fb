// Values that may be missing: a pointer that may be NULL, a lookup that may fail.

module Options {

  datatype Option<T> = None | Some(value: T)
}
