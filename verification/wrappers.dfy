/** The optional value used for dictionary lookups and separator searches. */
module Wrappers {

  datatype Option<+T> = None | Some(value: T)
}
