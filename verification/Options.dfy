/** The one failure-free wrapper every other module shares. */
module Options {
  datatype Option<+T> = None | Some(value: T)
}
