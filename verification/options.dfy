/** The optional value returned by the searches of this model (Python's `None` or a value). */
module Options {
  datatype Option<T> = None | Some(value: T)
}
