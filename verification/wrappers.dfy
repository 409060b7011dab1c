/** The optional value the quote service and the parsers return. */
module Wrappers {

  datatype Option<+T> = None | Some(value: T)
}
