/** An optional value, used by the decoders of the bus and port traces. */
module Wrappers {
  datatype Option<T> = None | Some(value: T)
}
