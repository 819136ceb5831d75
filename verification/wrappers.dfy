/** Optional values, used for JSON fields that may be absent and for parsers that may reject. */
module Wrappers {

  datatype Option<+T> = None | Some(value: T)

}
