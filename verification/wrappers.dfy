/** Optional values, for the props and derived values the components treat
    as possibly absent (a missing user, a hidden badge). */
module Wrappers {

  datatype Option<+T> = None | Some(value: T)
}
