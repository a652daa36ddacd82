/** The optional value used for identities that may not be resolved yet. */
module Wrappers {
  datatype Option<+T> = None | Some(value: T)
}
