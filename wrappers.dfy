/** The optional value used for query results and the session. */
module Wrappers {

  datatype Option<+T> = None | Some(value: T)
}
