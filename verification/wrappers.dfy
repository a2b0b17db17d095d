/** Small failure-compatible helper used across the model. */
module Wrappers {

  /** A value that may be absent: a parse that failed, a search that found nothing. */
  datatype Option<+T> = None | Some(value: T)
}
