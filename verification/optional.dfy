/** The usual optional value, standing for Python's `None` where the scripts return it. */
module Optional {

  datatype Option<+T> = None | Some(value: T)
}
