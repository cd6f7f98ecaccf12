/**
 * Go's `error` results: nil, or an error carrying its message.
 */
module Options {
  datatype Option<T> = None | Some(value: T)
}
