/** A value that may be missing: an index that leaves an array, a rank past the end. */
module Optional {
  datatype Option<T> = None | Some(value: T)
}
