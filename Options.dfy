/** The optional value used wherever the source returns a cell or None. */
module Options {

  datatype Option<+T> = None | Some(value: T)
}
