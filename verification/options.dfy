/** The optional value used wherever the scripts return `null` or may find nothing. */
module Options {

  datatype Option<+T> = None | Some(value: T)
}
