/** Optional values, used where the original returns `Option` or panics. */
module Options {

  datatype Option<+T> = None | Some(value: T)

}
