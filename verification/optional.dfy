/** The Some/None datatype, standing in for a value that may be `null`. */
module Optional {

  datatype Option<+T> = None | Some(value: T)
}
