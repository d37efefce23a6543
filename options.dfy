/** The optional value used for JavaScript's `undefined`/`NaN` results and Python's missing keys. */
module Options {
  datatype Option<+T> = None | Some(value: T)
}
