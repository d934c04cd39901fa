/** Datatypes shared by several modules. */
module Common {
  datatype Option<+T> = None | Some(value: T)
}
