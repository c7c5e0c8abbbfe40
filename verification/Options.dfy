/** A value that may be missing, for the source's null results. */
module Options {
  datatype Option<T> = None | Some(value: T)
}
