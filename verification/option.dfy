/** The optional-value datatype shared by the other modules. */
module Optional {

  /** A value that may be absent. */
  datatype Option<+T> = None | Some(value: T)
}
