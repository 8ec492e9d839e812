/** The optional value used where the source has `undefined`, `null` or "not found". */
module Wrappers {
  datatype Option<+T> = None | Some(value: T)
}
