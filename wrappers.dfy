/** Option: a value that may be absent (SQL NULL, a query that found no row). */
module Wrappers {
  datatype Option<+T> = None | Some(value: T)
}
