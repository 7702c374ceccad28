/** Optional values, used for absent errors and absent search results. */
module Wrappers {

  datatype Option<+T> = None | Some(value: T)

}
