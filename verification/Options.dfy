/** A value that may be absent: the source's `None`, `std::nullopt` and unset fields. */
module Options {
  datatype Option<+T> = None | Some(value: T)
}
