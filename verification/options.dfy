/** The optional value used for Python's `X | None` parameters. */
module Options {

  datatype Option<+T> = None | Some(value: T)
}
