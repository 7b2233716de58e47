/** The optional value used wherever the scripts fall back to `null` or an empty selection. */
module Wrappers {
  datatype Option<+T> = None | Some(value: T)
}
