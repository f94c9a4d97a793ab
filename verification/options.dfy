/** The result of an operation that may fail, panic or revert without a reason. */
module Options {
  datatype Option<+T> = None | Some(value: T)
}
