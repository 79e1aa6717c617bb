/** Optional values. */
module Options {
  /** A value or its absence: a null pointer, a missing key, the end of input. */
  datatype Option<+T> = None | Some(value: T)
}
