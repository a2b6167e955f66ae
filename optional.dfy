/** The usual Some/None datatype, for lookups and parsers that can fail. */
module Optional {

  datatype Option<+T> = None | Some(value: T)
}
