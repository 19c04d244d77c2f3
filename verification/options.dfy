/** An optional value: the result of a reading that can fail, or a body
    that may not have been built. */
module Options {
  datatype Option<T> = None | Some(value: T)
}
