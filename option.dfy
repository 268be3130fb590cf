/** The usual optional value, used by the parsers that invert the printed text. */
module Optional {
  datatype Option<+T> = None | Some(value: T)
}
