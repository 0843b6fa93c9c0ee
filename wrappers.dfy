/** Optional values, used for the results of lookups and of the external calls
    (URL parsing, playlist decoding) that the service may see fail. */
module Wrappers {

  datatype Option<+T> = None | Some(value: T)

}
