/** Optional values: an absent cache entry, a cancelled prompt, an unparsable number. */
module Wrappers {

  datatype Option<+T> = None | Some(value: T)
}
