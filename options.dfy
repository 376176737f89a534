/** The optional value used for every step that can fail and cause a row to be skipped. */
module Options {
  datatype Option<+T> = None | Some(value: T)
}
