/** The Java `null` of an optional reference, made explicit. */
module Wrappers {
  datatype Option<T> = None | Some(value: T)
}
