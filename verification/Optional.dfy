/** A value or none: what the source returns through a flag, an empty string or a sentinel. */
module Optional {
  datatype Option<+T> = None | Some(value: T)
}
