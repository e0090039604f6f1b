/** The optional value used for nullable columns, failed parses and failed searches. */
module Wrappers {
  datatype Option<+T> = None | Some(value: T)
}
