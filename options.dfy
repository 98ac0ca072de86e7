/** Optional values, used for the missing query argument and for the abstract fault point. */
module Options {
  datatype Option<+T> = None | Some(value: T)
}
