/** The optional value used wherever the source has an optional field or may return undefined. */
module Options {
  datatype Option<+T> = None | Some(value: T)
}
