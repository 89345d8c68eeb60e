/** The value-or-nothing type shared by every module of the project. */
module Optional {
  datatype Option<+T> = None | Some(value: T)
}
