/** What the server's protocols share: names, time, and how a call to a store can end. */
module Stores {

  type Token = nat

  type User = nat

  /** Seconds. */
  type Time = nat

  /** An error may hide that the call took effect. */
  datatype Outcome = Done | DoneWithError | Failed
}
