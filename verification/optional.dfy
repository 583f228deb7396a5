/** A value that may be absent: Go's nil results. */
module Optional {
  datatype Option<T> = None | Some(value: T)
}
