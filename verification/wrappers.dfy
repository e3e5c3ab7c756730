/** The conventional optional value, used for host queries that may return nothing
    and for decoders that may fail. */
module Wrappers {

  datatype Option<+T> = None | Some(value: T)
}
