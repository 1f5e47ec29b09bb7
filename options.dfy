/** The absence of a value, standing in for a C# null reference or list. */
module Options {
  datatype Option<+T> = None | Some(value: T)
}
