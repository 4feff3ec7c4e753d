/** A value that may be missing: a null result, an absent key. */
module Options {

  datatype Option<+T> = None | Some(value: T)
}
