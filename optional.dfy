/** An optional value: the JSON key that may be absent (`next`). */
module Optional {
  datatype Option<+T> = None | Some(value: T)
}
