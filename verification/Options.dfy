/** A value or nothing, for the error returns of the modelled code that carry no further detail. */
module Options {
  datatype Option<T> = None | Some(value: T)
}
