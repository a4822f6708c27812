/** Absent or present values, as the sources' `Option`. */
module Options {
  datatype Option<+T> = None | Some(value: T)
}
