/** Scheduling entities. */
module Entities {
  type Entity = nat
}
