/** Optional values, used for "was the service consulted, and with what". */
module Wrappers {

  datatype Option<+T> = None | Some(value: T)
}
