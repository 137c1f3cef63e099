/** Optional values: a decoded request body that may have failed to decode,
    a position that may not exist. */
module Wrappers {

  datatype Option<+T> = None | Some(value: T)
}
