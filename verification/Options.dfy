/** The conventional optional value; also stands for a Go slice or pointer that may be nil. */
module Options {
  datatype Option<+T> = None | Some(value: T)
}
