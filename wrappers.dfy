/** Optional values: a SQL NULL, a missing request field, a lookup that finds no row. */
module Wrappers {

  datatype Option<+T> = None | Some(value: T)
}
