/** A value that may be missing: a null pointer or an absent subtree. */
module Wrappers {
  datatype Option<T> = None | Some(value: T)
}
