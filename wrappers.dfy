/** A value that may be absent (the `null` of the programs modelled here). */
module Wrappers {

  datatype Option<T> = None | Some(value: T)

}
