/** An optional value, for Python's `Optional[...]` results. */
module Options {

  datatype Option<+T> = None | Some(value: T)
}
