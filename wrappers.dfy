/** Optional values: a lookup that found nothing, a prompt that was cancelled. */
module Wrappers {

  datatype Option<+T> = None | Some(value: T)

}
