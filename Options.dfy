/** The usual optional-value wrapper: `None` stands for a Python `None`
    or for an operation that raised. */
module Options {
  datatype Option<+T> = None | Some(value: T)
}
