/** Optional values: an absent sheet, an empty form field, a missing archive. */
module Wrappers {

  datatype Option<+T> = None | Some(value: T)
}
