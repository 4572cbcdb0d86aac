/** The optional value used where the game keeps `null` until something is chosen. */
module Options {
  datatype Option<+T> = None | Some(value: T)
}
