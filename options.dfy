/** The optional value returned by every intersection routine. */
module Options {
  datatype Option<+T> = None | Some(value: T)
}
