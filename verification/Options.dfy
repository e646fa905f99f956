/** An optional value: a key that may be missing, a result there may not be. */
module Options {
  datatype Option<+T> = None | Some(value: T)
}
