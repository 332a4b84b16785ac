/** An optional value: Python's `None` or a present value, and the absence of a dictionary key. */
module Options {

  datatype Option<+T> = None | Some(value: T)

}
