/** The optional value the Java code expresses with `null` or `java.util.Optional`. */
module Wrappers {

  datatype Option<+T> = None | Some(value: T)
}
