/** A value that may be absent. */
module OptionType {
  datatype Option<+T> = None | Some(value: T)
}
