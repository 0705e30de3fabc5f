/** Optional values: the model of a TypeScript `T | null` (or `undefined`). */
module Wrappers {
  datatype Option<+T> = None | Some(value: T)
}
