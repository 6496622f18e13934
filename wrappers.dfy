/** The optional value used for the source's `Optional[...]` fields and queries that may find nothing. */
module Wrappers {

  datatype Option<+T> = None | Some(value: T)
}
