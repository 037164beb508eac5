/** A value that may be absent: the source's `undefined`. */
module Optional {
  datatype Option<T> = None | Some(value: T)
}
