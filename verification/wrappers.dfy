/** Optional values, used where the source would read an undefined entry. */
module Wrappers {

  datatype Option<+T> = None | Some(value: T)
}
