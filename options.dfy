/** The optional value used at every stage boundary of the draw-op builder. */
module Options {
  datatype Option<+T> = None | Some(value: T)
}
