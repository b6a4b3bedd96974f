/** The in-memory replay cache: a nonce is refused until its retain-until instant has passed. */
module Replay {
  import opened Outcome

  datatype ReplayKey = ReplayKey(signer: string, audience: string, nonce: string)

  datatype Decision = Fresh | Replayed

  /** The state of a cache: the skew it was built with, and each key's retain-until instant. */
  datatype Cache = Cache(skew: int, seen: map<ReplayKey, int>)

  function RetainUntil(expires: int, skew: int): int {
    Saturate(expires + skew)
  }

  function Insert(c: Cache, key: ReplayKey, expires: int): (Decision, Cache) {
    if key in c.seen then (Replayed, c)
    else (Fresh, c.(seen := c.seen[key := RetainUntil(expires, c.skew)]))
  }

  function Pruned(c: Cache, now: int): Cache {
    c.(seen := map key | key in c.seen && c.seen[key] >= now :: c.seen[key])
  }

  class InMemoryReplayCache {
    const maxClockSkew: int
    var seen: map<ReplayKey, int>

    function State(): Cache
      reads this
    {
      Cache(maxClockSkew, seen)
    }

    constructor (skew: int)
      ensures State() == Cache(skew, map[])
    {
      maxClockSkew := skew;
      seen := map[];
    }

    method CheckAndInsert(signer: string, audience: string, nonce: string, expires: int) returns (d: Decision)
      modifies this
      ensures (d, State()) == Insert(old(State()), ReplayKey(signer, audience, nonce), expires)
    {
      var key := ReplayKey(signer, audience, nonce);
      if key in seen {
        return Replayed;
      }
      var retainUntil := Saturate(expires + maxClockSkew);
      seen := seen[key := retainUntil];
      return Fresh;
    }

    /** Evicts the expired entries one by one. */
    method Prune(now: int)
      modifies this
      ensures State() == Pruned(old(State()), now)
    {
      var pending := seen.Keys;
      while pending != {}
        invariant pending <= old(seen).Keys
        invariant seen == map key | key in old(seen) && (key in pending || old(seen)[key] >= now) :: old(seen)[key]
        decreases |pending|
      {
        var key :| key in pending;
        if seen[key] < now {
          seen := seen - {key};
        }
        pending := pending - {key};
      }
    }
  }

  /** An instant past a retain-until is past the unsaturated sum as well. */
  lemma RetainIsLate(expires: int, skew: int, now: int)
    requires IsI64(now) && RetainUntil(expires, skew) < now
    ensures expires + skew < now
  {
  }
}
