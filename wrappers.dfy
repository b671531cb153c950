/** The optional value used for lookups that can fail. */
module Wrappers {

  datatype Option<T> = None | Some(value: T)
}
