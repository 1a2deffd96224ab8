/** The optional value the views pass around: a server reply that may be
    missing, a drop target that may be absent, a timer that may be unarmed. */
module Wrappers {
  datatype Option<T> = None | Some(value: T)
}
