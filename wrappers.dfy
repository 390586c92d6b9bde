/** The usual optional-value datatype, used for the source's `null` results. */
module Wrappers {
  datatype Option<T> = None | Some(value: T)
}
