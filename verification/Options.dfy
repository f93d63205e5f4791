/**
 A value or nothing: what a pointer that may be null stands for.
 */
module Options {
  datatype Option<+T> = None | Some(value: T)
}
