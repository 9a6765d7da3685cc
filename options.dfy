/** The optional value used wherever the source allows `null`. */
module Options {
  datatype Option<+T> = None | Some(value: T)
}
