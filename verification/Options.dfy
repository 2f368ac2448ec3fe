/** A value that may be missing: a NULL result, a lookup without a match, a sleep without an end. */
module Options {

  datatype Option<T> = None | Some(value: T)
}
