/** Optional values: an attribute that may be absent, a search that may find nothing. */
module Wrappers {

  datatype Option<+T> = None | Some(value: T)

  /** The result of running an event handler: it ran to the end, or it
      stopped at an uncaught TypeError (a property read on null or undefined). */
  datatype Outcome = Done | Fault
}
