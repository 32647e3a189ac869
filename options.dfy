/** An optional value, for the source's null references and error sentinels. */
module Options {
  datatype Option<+T> = None | Some(value: T)
}
