/** The usual Some/None wrapper, used for "the operation does not exist". */
module Optional {

  datatype Option<+T> = None | Some(value: T)
}
