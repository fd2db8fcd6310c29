/** The optional value that stands for a nullable reference. */
module Options {

  datatype Option<+T> = None | Some(value: T)
}
