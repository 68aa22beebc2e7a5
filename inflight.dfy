/**
  The module-level `inflightRequests` map of the optimiser: the fingerprints of the requests
  being optimised right now. Concurrent requests are not modelled; the map is a set of keys that
  one request at a time adds to and removes from.
*/
module Inflight {

  class InflightRequests {
    /** The fingerprints that have a marker. */
    var pending: set<string>

    constructor ()
      ensures pending == {}
    {
      pending := {};
    }

    /** `inflightRequests.has(key)`. */
    predicate Has(key: string)
      reads this
    {
      key in pending
    }

    /** `inflightRequests.set(key, promise)`: the marker of a request that starts optimising. */
    method Begin(key: string)
      modifies this
      ensures pending == old(pending) + {key}
    {
      pending := pending + {key};
    }

    /** `dedupeResolver(); inflightRequests.delete(key)`: the marker is resolved and removed. */
    method Complete(key: string)
      modifies this
      ensures pending == old(pending) - {key}
    {
      pending := pending - {key};
    }
  }
}
