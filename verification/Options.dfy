/** A value, or the lack of one: undefined, null or NaN in the programs modelled. */
module Options {
  datatype Option<+T> = None | Some(value: T)
}
