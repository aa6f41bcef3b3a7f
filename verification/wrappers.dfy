/** Optional values, standing in for the nullable refs of the canvas component and App. */
module Wrappers {

  datatype Option<+T> = None | Some(value: T)
}
