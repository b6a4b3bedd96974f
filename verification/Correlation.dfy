/** The client's in-flight correlation store: registered requests, and the nonces still in their window. */
module Correlation {
  import opened Outcome

  datatype PendingRequest = PendingRequest(
    correlationId: string, requestHash: string, nonce: string, issuedAt: int, deadline: int, routeId: string,
    audience: string, expectedSigners: seq<string>, version: string, canonicalizationId: string, authzDigest: string)

  datatype CorrelationError = DuplicateCorrelationId | NonceReuse | Uncorrelatable | Expired

  function ToMcpsError(e: CorrelationError): McpsError {
    match e
    case DuplicateCorrelationId => ReplayDetected
    case NonceReuse => ReplayDetected
    case Uncorrelatable => ResponseHashMismatch
    case Expired => ExpiredRequest
  }

  datatype State = State(pending: map<string, PendingRequest>, window: map<string, int>)

  const EMPTY: State := State(map[], map[])

  // ----- What each operation does -----

  /** Why a registration is refused, if it is. */
  function Refusal(s: State, r: PendingRequest, now: int): Option<CorrelationError> {
    if r.correlationId in s.pending then Some(DuplicateCorrelationId)
    else if r.nonce in s.window && s.window[r.nonce] > now then Some(NonceReuse)
    else None
  }

  function Registered(s: State, r: PendingRequest): State {
    State(s.pending[r.correlationId := r], s.window[r.nonce := r.deadline])
  }

  datatype Taken = Done(entry: PendingRequest) | Failed(error: CorrelationError)

  function TakeVerdict(s: State, id: string, now: int): Taken {
    if id !in s.pending then Failed(Uncorrelatable)
    else if now > s.pending[id].deadline then Failed(Expired)
    else Done(s.pending[id])
  }

  function Without(s: State, id: string): State {
    s.(pending := s.pending - {id})
  }

  function Swept(s: State, now: int): State {
    State(map id | id in s.pending && s.pending[id].deadline >= now :: s.pending[id],
          map n | n in s.window && s.window[n] >= now :: s.window[n])
  }

  class CorrelationStore {
    var pending: map<string, PendingRequest>
    var window: map<string, int>

    function Contents(): State
      reads this
    {
      State(pending, window)
    }

    constructor ()
      ensures Contents() == EMPTY
    {
      pending := map[];
      window := map[];
    }

    method Register(r: PendingRequest, now: int) returns (failure: Option<CorrelationError>)
      modifies this
      ensures failure == Refusal(old(Contents()), r, now)
      ensures Contents() == if failure.None? then Registered(old(Contents()), r) else old(Contents())
    {
      if r.correlationId in pending {
        return Some(DuplicateCorrelationId);
      }
      if r.nonce in window {
        if window[r.nonce] > now {
          return Some(NonceReuse);
        }
      }
      window := window[r.nonce := r.deadline];
      pending := pending[r.correlationId := r];
      return None;
    }

    method TakeForResponse(id: string, now: int) returns (t: Taken)
      modifies this
      ensures t == TakeVerdict(old(Contents()), id, now)
      ensures Contents() == Without(old(Contents()), id)
    {
      if id !in pending {
        return Failed(Uncorrelatable);
      }
      var entry := pending[id];
      pending := pending - {id};
      if now > entry.deadline {
        return Failed(Expired);
      }
      return Done(entry);
    }

    method Cancel(id: string) returns (entry: Option<PendingRequest>)
      modifies this
      ensures entry == if id in old(pending) then Some(old(pending)[id]) else None
      ensures Contents() == Without(old(Contents()), id)
    {
      if id !in pending {
        return None;
      }
      entry := Some(pending[id]);
      pending := pending - {id};
    }

    /** Drops the entries past their deadline, one by one. */
    method RetainPending(now: int)
      modifies this`pending
      ensures pending == Swept(old(Contents()), now).pending
    {
      var ids := pending.Keys;
      while ids != {}
        invariant ids <= old(pending).Keys
        invariant pending == map id | id in old(pending) && (id in ids || old(pending)[id].deadline >= now) :: old(pending)[id]
        decreases |ids|
      {
        var id :| id in ids;
        if pending[id].deadline < now {
          pending := pending - {id};
        }
        ids := ids - {id};
      }
    }

    /** Drops the closed windows, one by one. */
    method RetainWindow(now: int)
      modifies this`window
      ensures window == Swept(old(Contents()), now).window
    {
      var nonces := window.Keys;
      while nonces != {}
        invariant nonces <= old(window).Keys
        invariant window == map n | n in old(window) && (n in nonces || old(window)[n] >= now) :: old(window)[n]
        decreases |nonces|
      {
        var n :| n in nonces;
        if window[n] < now {
          window := window - {n};
        }
        nonces := nonces - {n};
      }
    }

    method SweepExpired(now: int) returns (removed: int)
      modifies this
      ensures Contents() == Swept(old(Contents()), now)
      ensures removed == |old(pending)| - |pending|
    {
      var before := |pending|;
      RetainPending(now);
      RetainWindow(now);
      removed := before - |pending|;
    }
  }

  // ----- Runs -----

  datatype Step =
    | Register(request: PendingRequest, now: int)
    | Take(id: string, now: int)
    | Cancel(id: string, now: int)
    | Sweep(now: int)

  datatype Verdict = Accepted | Refused(error: CorrelationError) | Response(taken: Taken) | Cancelled(entry: Option<PendingRequest>) | SweptAway

  function Perform(s: State, step: Step): (Verdict, State) {
    match step
    case Register(r, now) =>
      (match Refusal(s, r, now)
       case Some(e) => (Refused(e), s)
       case None => (Accepted, Registered(s, r)))
    case Take(id, now) => (Response(TakeVerdict(s, id, now)), Without(s, id))
    case Cancel(id, _) => (Cancelled(if id in s.pending then Some(s.pending[id]) else None), Without(s, id))
    case Sweep(now) => (SweptAway, Swept(s, now))
  }

  function After(start: State, steps: seq<Step>, k: nat): State
    requires k <= |steps|
  {
    if k == 0 then start else Perform(After(start, steps, k - 1), steps[k - 1]).1
  }

  function VerdictAt(start: State, steps: seq<Step>, k: nat): Verdict
    requires k < |steps|
  {
    Perform(After(start, steps, k), steps[k]).0
  }

  predicate Clocked(steps: seq<Step>) {
    forall i, j :: 0 <= i <= j < |steps| ==> steps[i].now <= steps[j].now
  }

  // ----- Nonce exclusivity -----

  /** The window holds the nonce to its deadline, or the deadline has come. */
  predicate Held(s: State, nonce: string, deadline: int, now: int) {
    (nonce in s.window && s.window[nonce] == deadline) || deadline <= now
  }

  lemma StepHolds(s: State, step: Step, nonce: string, deadline: int, before: int)
    requires Held(s, nonce, deadline, before) && before <= step.now
    ensures Held(Perform(s, step).1, nonce, deadline, step.now)
  {
  }

  lemma {:induction false} HeldSince(start: State, steps: seq<Step>, i: nat, k: nat, nonce: string, deadline: int)
    requires Clocked(steps) && i < k <= |steps| && Held(After(start, steps, i + 1), nonce, deadline, steps[i].now)
    ensures Held(After(start, steps, k), nonce, deadline, steps[k - 1].now)
  {
    if k > i + 1 {
      HeldSince(start, steps, i, k - 1, nonce, deadline);
      StepHolds(After(start, steps, k - 1), steps[k - 1], nonce, deadline, steps[k - 2].now);
    }
  }

  /** In every run, a nonce is registered again no earlier than its earlier deadline. */
  lemma NonceExclusive(start: State, steps: seq<Step>, i: nat, j: nat)
    requires Clocked(steps) && i < j < |steps| && steps[i].Register? && steps[j].Register?
    requires VerdictAt(start, steps, i) == Accepted && VerdictAt(start, steps, j) == Accepted
    requires steps[i].request.nonce == steps[j].request.nonce
    ensures steps[i].request.deadline <= steps[j].now
  {
    var r := steps[i].request;
    HeldSince(start, steps, i, j, r.nonce, r.deadline);
    assert steps[j - 1].now <= steps[j].now;
  }

  // ----- Sweeping is transparent -----

  /** Of two stores at one instant, `s` lacks only what has expired in `u`. */
  predicate Shadows(u: State, s: State, now: int) {
    && (forall id :: id in s.pending ==> id in u.pending && u.pending[id] == s.pending[id])
    && (forall id :: id in u.pending && u.pending[id].deadline >= now ==> id in s.pending)
    && (forall n :: n in s.window ==> n in u.window && u.window[n] == s.window[n])
    && (forall n :: n in u.window && u.window[n] >= now ==> n in s.window)
  }

  lemma SweepShadows(u: State, s: State, before: int, now: int)
    requires Shadows(u, s, before) && before <= now
    ensures Shadows(u, Swept(s, now), now)
  {
  }

  /** An id that only the unswept store still knows, by an expired entry. */
  predicate StaleId(u: State, s: State, step: Step) {
    step.Register? && step.request.correlationId in u.pending && step.request.correlationId !in s.pending
  }

  /** The verdicts are equal, or a lapsed entry is reported as expired by one and as unknown by the other. */
  predicate SameButForLapse(u: Verdict, s: Verdict, now: int) {
    || u == s
    || (u == Response(Failed(Expired)) && s == Response(Failed(Uncorrelatable)))
    || (u.Cancelled? && u.entry.Some? && u.entry.value.deadline < now && s == Cancelled(None))
  }

  /** One step on both stores: related verdicts and related stores, unless a stale id is registered. */
  lemma StepTransparent(u: State, s: State, step: Step, before: int)
    requires Shadows(u, s, before) && before <= step.now && !step.Sweep?
    ensures !StaleId(u, s, step) ==>
              && SameButForLapse(Perform(u, step).0, Perform(s, step).0, step.now)
              && Shadows(Perform(u, step).1, Perform(s, step).1, step.now)
    ensures StaleId(u, s, step) ==>
              && Perform(u, step).0 == Refused(DuplicateCorrelationId)
              && Perform(s, step).0 != Refused(DuplicateCorrelationId)
              && u.pending[step.request.correlationId].deadline < before
  {
  }

  /** The run in which sweeps are never performed. */
  function Unswept(start: State, steps: seq<Step>, k: nat): State
    requires k <= |steps|
  {
    if k == 0 then start
    else if steps[k - 1].Sweep? then Unswept(start, steps, k - 1)
    else Perform(Unswept(start, steps, k - 1), steps[k - 1]).1
  }

  /** Up to k, no registration names an id whose entry sweeps have removed and the unswept run still holds. */
  predicate NoStaleId(start: State, steps: seq<Step>, k: nat)
    requires k <= |steps|
  {
    k == 0 ||
    (NoStaleId(start, steps, k - 1) && !StaleId(Unswept(start, steps, k - 1), After(start, steps, k - 1), steps[k - 1]))
  }

  function LastInstant(steps: seq<Step>, k: nat, start: int): int
    requires k <= |steps|
  {
    if k == 0 then start else steps[k - 1].now
  }

  lemma {:induction false} RunsShadow(start: State, steps: seq<Step>, k: nat, t: int)
    requires Clocked(steps) && k <= |steps| && (|steps| > 0 ==> t <= steps[0].now)
    requires NoStaleId(start, steps, k)
    ensures Shadows(Unswept(start, steps, k), After(start, steps, k), LastInstant(steps, k, t))
  {
    if k > 0 {
      RunsShadow(start, steps, k - 1, t);
      var (u, s) := (Unswept(start, steps, k - 1), After(start, steps, k - 1));
      var (before, step) := (LastInstant(steps, k - 1, t), steps[k - 1]);
      assert before <= step.now;
      if step.Sweep? {
        SweepShadows(u, s, before, step.now);
      } else {
        StepTransparent(u, s, step, before);
      }
    }
  }

  /** With and without sweeps, step k gets the same verdict, except that a lapsed entry may be gone. */
  predicate TransparentAt(start: State, steps: seq<Step>, k: nat)
    requires k < |steps|
  {
    steps[k].Sweep? || SameButForLapse(Perform(Unswept(start, steps, k), steps[k]).0, VerdictAt(start, steps, k), steps[k].now)
  }

  /** After a run without stale ids, the next step is transparent if and only if it registers none. */
  lemma TransparentStep(start: State, steps: seq<Step>, k: nat)
    requires Clocked(steps) && k < |steps| && NoStaleId(start, steps, k)
    ensures TransparentAt(start, steps, k) <==> !StaleId(Unswept(start, steps, k), After(start, steps, k), steps[k])
  {
    RunsShadow(start, steps, k, steps[0].now);
    if !steps[k].Sweep? {
      StepTransparent(Unswept(start, steps, k), After(start, steps, k), steps[k], LastInstant(steps, k, steps[0].now));
    }
  }

  predicate TransparentUpTo(start: State, steps: seq<Step>, k: nat)
    requires k <= |steps|
  {
    k == 0 || (TransparentUpTo(start, steps, k - 1) && TransparentAt(start, steps, k - 1))
  }

  /**
   * Sweep transparency, exactly: with and without sweeps a run gives the same verdicts, up to
   * lapsed entries being gone, if and only if no registration reuses an id that sweeps freed
   * and the unswept run still holds.
   */
  lemma {:induction false} SweepsAreTransparent(start: State, steps: seq<Step>, k: nat)
    requires Clocked(steps) && k <= |steps|
    ensures TransparentUpTo(start, steps, k) <==> NoStaleId(start, steps, k)
  {
    if k > 0 {
      SweepsAreTransparent(start, steps, k - 1);
      if NoStaleId(start, steps, k - 1) {
        TransparentStep(start, steps, k - 1);
      }
    }
  }

  /** A registration under an id the unswept run does not hold by a lapsed entry is never stale. */
  lemma {:induction false} LapsedIdsSuffice(start: State, steps: seq<Step>, k: nat)
    requires Clocked(steps) && k <= |steps|
    requires forall i :: 0 <= i < k && steps[i].Register? ==>
               var held := Unswept(start, steps, i).pending;
               var id := steps[i].request.correlationId;
               id in held ==> held[id].deadline >= steps[i].now
    ensures NoStaleId(start, steps, k)
  {
    if k > 0 {
      LapsedIdsSuffice(start, steps, k - 1);
      RunsShadow(start, steps, k - 1, steps[0].now);
    }
  }

  /** Reusing the id of any swept entry, with a nonce of its own, sets the two runs apart. */
  lemma LapsedIdReused(first: PendingRequest, second: PendingRequest, t: int, now: int)
    requires t <= now && first.deadline < now
    requires first.correlationId == second.correlationId && first.nonce != second.nonce
    ensures var steps := [Register(first, t), Sweep(now), Register(second, now)];
            && Clocked(steps)
            && VerdictAt(EMPTY, steps, 2) == Accepted
            && Perform(Unswept(EMPTY, steps, 2), steps[2]).0 == Refused(DuplicateCorrelationId)
  {
    var steps := [Register(first, t), Sweep(now), Register(second, now)];
    var one := Registered(EMPTY, first);
    assert After(EMPTY, steps, 0) == EMPTY && Unswept(EMPTY, steps, 0) == EMPTY;
    assert After(EMPTY, steps, 1) == one && Unswept(EMPTY, steps, 1) == one;
    assert After(EMPTY, steps, 2) == Swept(one, now) && Unswept(EMPTY, steps, 2) == one;
  }
}
