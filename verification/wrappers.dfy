/** Optional values, used for the session (a logged-in user or nobody) and
    for a form field that may be missing. */
module Wrappers {

  datatype Option<+T> = None | Some(value: T)
}
