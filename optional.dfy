/** The nullable values of the source (a `null` Integer, a `null` call) as an Option. */
module Optional {
  datatype Option<+T> = None | Some(value: T)
}
