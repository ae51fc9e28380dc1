/** The optional value used for Python's `None`. */
module Maybe {

  datatype Option<+T> = None | Some(value: T)
}
