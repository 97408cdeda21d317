/** A value that may be missing: an SQL null, a null pointer, an absent result. */
module Optional {

  datatype Option<+T> = None | Some(value: T)
}
