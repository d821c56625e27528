/** A physical node of the library ring: its identity and its load counters. */
module Nodes {

  class Node {
    const id: string
    const host: string
    /** The number of keys currently assigned to this node. */
    var load: int
    /** The cap on load for bounded-load assignment; 0 means no cap. */
    var maxLoad: int

    constructor (id: string, host: string)
      ensures this.id == id && this.host == host
      ensures load == 0 && maxLoad == 0
    {
      this.id := id;
      this.host := host;
      load := 0;
      maxLoad := 0;
    }

    /** Whether the node may take one more key: always when it has no cap,
        otherwise exactly when one more key keeps it within the cap. */
    function CanAcceptKey(): (ok: bool)
      reads this
      ensures ok <==> maxLoad == 0 || load + 1 <= maxLoad
      ensures !ok ==> maxLoad != 0 && load >= maxLoad
    {
      if maxLoad == 0 then true else load < maxLoad
    }

    method IncrementLoad()
      modifies this
      ensures load == old(load) + 1
      ensures maxLoad == old(maxLoad)
    {
      load := load + 1;
    }

    /** Decrements the load, never below zero. */
    method DecrementLoad()
      modifies this
      ensures load == if old(load) > 0 then old(load) - 1 else old(load)
      ensures old(load) >= 0 ==> load >= 0
      ensures maxLoad == old(maxLoad)
    {
      if load > 0 {
        load := load - 1;
      }
    }

    method ResetLoad()
      modifies this
      ensures load == 0
      ensures maxLoad == old(maxLoad)
    {
      load := 0;
    }
  }
}
