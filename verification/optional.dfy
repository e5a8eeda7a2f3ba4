/** The outcome of a Python operation that either yields a value or raises. */
module Optional {

  datatype Option<+T> = None | Some(value: T)
}
