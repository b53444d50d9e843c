/** Optional values: a nullable column, a lookup that may miss, a query that may be refused. */
module Wrappers {
  datatype Option<+T> = None | Some(value: T)
}
