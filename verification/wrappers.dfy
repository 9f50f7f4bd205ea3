/** Optional values: `None` stands for JavaScript's `undefined`, for a thrown
    exception, or for "no match", as each use site says. */
module Wrappers {
  datatype Option<+T> = None | Some(value: T)
}
