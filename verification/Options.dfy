// The optional values that the source writes as `T | undefined` or `T | null`.
module Options {
  datatype Option<+T> = None | Some(value: T)
}
