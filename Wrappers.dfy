/** The optional value the model uses where the Java code returns a nullable reference. */
module Wrappers {

  datatype Option<+T> = None | Some(value: T)
}
