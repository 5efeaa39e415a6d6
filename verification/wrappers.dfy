/** Optional value, used where the program yields `NaN` or has no panel. */
module Wrappers {

  datatype Option<+T> = None | Some(value: T)
}
