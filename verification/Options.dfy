/** The optional value every model here uses for the source's `null` and `undefined`. */
module Options {
  datatype Option<+T> = None | Some(value: T)
}
