/** Optional values: the source's `None` for a cursor that was never saved and
    for a parameter parse that raises. */
module Wrappers {
  datatype Option<+T> = None | Some(value: T)
}
