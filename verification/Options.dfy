module Options {
  /** Stands for a pointer that may be null, or for an out-parameter that may be left alone. */
  datatype Option<T> = None | Some(value: T)
}
