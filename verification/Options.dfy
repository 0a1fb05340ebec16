/** The optional result that stands for the source's `undefined` and `null`. */
module Options {
  datatype Option<+T> = None | Some(value: T)
}
