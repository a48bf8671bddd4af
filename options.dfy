/** An optional value, for results that may be absent (no intersection, an
    exception instead of a value). */
module Options {
  datatype Option<T> = None | Some(value: T)
}
