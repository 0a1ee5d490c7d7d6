/** An optional value: a field that a JavaScript object may not have yet, or a search that may find nothing. */
module Options {
  datatype Option<+T> = None | Some(value: T)
}
