/** An optional value: the nil-or-something results of the Go code. */
module Results {
  datatype Option<T> = None | Some(value: T)
}
