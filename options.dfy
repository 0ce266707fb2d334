/** The tagged optional used where the original code has a nullable reference. */
module Options {

  datatype Option<+T> = None | Some(value: T)
}
