/** The usual Some/None wrapper, used for optional selections and for a
    result that is either a value or Python's None. */
module Options {
  datatype Option<+T> = None | Some(value: T)
}
