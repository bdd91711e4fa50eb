/** Optional values: an absent optional field, a lookup that found nothing. */
module Wrappers {

  datatype Option<+T> = None | Some(value: T)
}
