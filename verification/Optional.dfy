/** A value that may be absent: the source's `None`. */
module Optional {
  datatype Option<+T> = None | Some(value: T)
}
