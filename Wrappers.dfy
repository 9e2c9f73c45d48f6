/** A nullable reference of the Java program, as a value. */
module Wrappers {

  datatype Option<+T> = None | Some(value: T)
}
