/** The usual optional value, for null pointers and absent writes. */
module Options {

  datatype Option<+T> = None | Some(value: T)
}
