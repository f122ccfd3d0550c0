/** Optional values, used for the analyser's recoverable failures. */
module Options {
  datatype Option<+T> = None | Some(value: T)
}
