/** A value that may be absent: JavaScript's `null` in the page's state. */
module Optional {

  datatype Option<+T> = None | Some(value: T)
}
