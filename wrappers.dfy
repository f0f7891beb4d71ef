/** Optional values: JavaScript's `null` in a key record, and the absent
    localStorage item. */
module Wrappers {

  datatype Option<+T> = None | Some(value: T)
}
