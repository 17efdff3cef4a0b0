/** The optional value used wherever the JavaScript code tests for a missing value
    (`if (!file)`). */
module Options {
  datatype Option<+T> = None | Some(value: T)
}
