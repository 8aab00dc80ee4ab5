/** A value that may be missing: std::map::find at its end, a null pointer, a mutex without owner. */
module Options {
  datatype Option<T> = None | Some(value: T)
}
