/** The optional value used for the source's `undefined` inputs and regex non-matches. */
module Wrappers {
  datatype Option<+T> = None | Some(value: T)
}
