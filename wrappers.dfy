/** The optional value that the service's queries and parsers return. */
module Wrappers {
  datatype Option<+T> = None | Some(value: T)
}
