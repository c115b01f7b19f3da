/** The not-found signal of a lookup: `None` stands for Python's `None`. */
module Optional {

  datatype Option<+T> = None | Some(value: T)
}
