/** A value that may be missing, for results solution.py reports as None. */
module Optional {
  datatype Option<T> = None | Some(value: T)
}
