/** Optional values: a JavaScript `undefined` / "not found" made explicit. */
module Wrappers {
  datatype Option<+T> = None | Some(value: T)
}
