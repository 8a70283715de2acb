// A JavaScript value that may be absent (`undefined` or `null`).
module Optional {

  datatype Option<+T> = None | Some(value: T)
}
