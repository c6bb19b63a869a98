/** The optional value used where the source returns `string | null` or takes `File | null`. */
module Wrappers {
  datatype Option<+T> = None | Some(value: T)
}
