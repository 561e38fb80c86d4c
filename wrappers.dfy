/** Optional values: JavaScript's `null` / `undefined` where the forum client uses them. */
module Wrappers {

  datatype Option<+T> = None | Some(value: T)
}
