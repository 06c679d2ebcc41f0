/** Optional values, standing in for JavaScript's `null` returns
    (a missing storage key, a missing element, a failed search). */
module Wrappers {

  datatype Option<+T> = None | Some(value: T)
}
