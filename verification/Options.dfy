/** A value that may be absent: null or NaN in JavaScript, null in Java. */
module Options {
  datatype Option<+T> = None | Some(value: T)
}
