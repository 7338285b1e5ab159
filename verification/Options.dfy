/** Results that may be absent: a null, an undefined or a "not found". */
module Options {
  datatype Option<T> = None | Some(value: T)
}
