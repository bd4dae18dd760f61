/** A value that may be missing: an unset reference or a payload field that is `undefined`. */
module Optional {
  datatype Option<+T> = None | Some(value: T)
}
