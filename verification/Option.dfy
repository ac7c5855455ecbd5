/** A value that may be missing; stands for the null pointers and not-found results of the source. */
module Options {
  datatype Option<+T> = None | Some(value: T)
}
