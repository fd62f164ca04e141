// The optional value used for attributes that may be absent and for
// handlers that may return early.

module Options {
  datatype Option<T> = None | Some(value: T)
}
