/** Optional values: an absent header, cookie, request field or table row. */
module Wrappers {

  datatype Option<+T> = None | Some(value: T)
}
