/** How a statement issued to the shared database went, as its caller can tell. */
module Replies {
  /** Executed; executed with the reply lost to an error or timeout; not executed. */
  datatype Reply = Done | Lost | Failed
}
