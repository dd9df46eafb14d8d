/** The optional value used where the JavaScript code has `null` or `undefined`. */
module Options {
  datatype Option<+T> = None | Some(value: T)
}
