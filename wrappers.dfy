/** The optional value the parsers return: Python's `None` or a coordinate pair. */
module Wrappers {

  datatype Option<+T> = None | Some(value: T)
}
