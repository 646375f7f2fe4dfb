/** A value that may be absent, as the nil pointers and missing keys of Go. */
module Options {
  datatype Option<+T> = None | Some(value: T)
}
