/** An optional value: a dictionary entry or a column that may be absent. */
module Optional {
  datatype Option<+T> = None | Some(value: T)
}
