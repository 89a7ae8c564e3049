/** The "undefined" of the source (NaN, None) is modelled as an Option. */
module Options {
  datatype Option<+T> = None | Some(value: T)
}
