/** The optional value both structures return: a heap extraction that finds
    nothing, and a child link that is absent. */
module Wrappers {

  datatype Option<+T> = None | Some(value: T)

}
