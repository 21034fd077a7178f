/** A value that may be missing: a NULL pointer, a failed scan, a step that is not possible. */
module Options {

  datatype Option<+T> = None | Some(value: T)
}
