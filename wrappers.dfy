/** Optional values: a missing file, a search that found nothing. */
module Wrappers {

  datatype Option<T> = None | Some(value: T)
}
