/** The optional value used by decoders and parsers for "nothing here". */
module Options {
  datatype Option<+T> = None | Some(value: T)
}
