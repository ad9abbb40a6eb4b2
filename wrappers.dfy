/** The usual Option datatype, used for `find` results that may be absent. */
module Wrappers {
  datatype Option<+T> = None | Some(value: T)
}
