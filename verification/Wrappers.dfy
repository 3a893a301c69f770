// Shared datatypes of the project.
module Wrappers {

  datatype Option<+T> = None | Some(value: T)
}
