/** Option type used wherever the resolver's Python code returns `None`
    or a value. */
module Wrappers {

  datatype Option<+T> = None | Some(value: T)
}
