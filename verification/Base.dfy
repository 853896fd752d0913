/** Types every component uses. */
module Base {
  datatype Option<+T> = None | Some(value: T)
}
