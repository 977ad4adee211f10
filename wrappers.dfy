/** The optional value used where the source returns `null` or `''` for a miss. */
module Wrappers {
  datatype Option<+T> = None | Some(value: T)
}
