/** The conventional Some/None datatype, used where the source returns `None`. */
module Optional {

  datatype Option<+T> = None | Some(value: T)
}
