/** Option type shared by the model: the `Option` of the generated code. */
module Wrappers {

  datatype Option<+T> = None | Some(value: T)
}
