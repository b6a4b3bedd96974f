/** What the correlation store answers, told by the steps of the run so far. */
module CorrelationRuns {
  import opened Outcome
  import opened Correlation

  /** Step i registered this request. */
  predicate RegisteredAt(steps: seq<Step>, i: nat, r: PendingRequest) {
    i < |steps| && steps[i].Register? && steps[i].request == r && VerdictAt(EMPTY, steps, i) == Accepted
  }

  // ----- Nonces -----

  /** Every nonce in the window was registered, with the deadline it is held to. */
  lemma {:induction false} WindowOrigin(steps: seq<Step>, k: nat, nonce: string) returns (i: nat, r: PendingRequest)
    requires k <= |steps| && nonce in After(EMPTY, steps, k).window
    ensures i < k && RegisteredAt(steps, i, r) && r.nonce == nonce && r.deadline == After(EMPTY, steps, k).window[nonce]
  {
    var (before, step) := (After(EMPTY, steps, k - 1), steps[k - 1]);
    if step.Register? && Refusal(before, step.request, step.now).None? && step.request.nonce == nonce {
      i, r := k - 1, step.request;
    } else {
      i, r := WindowOrigin(steps, k - 1, nonce);
    }
  }

  /** Step i registered this nonce, with a deadline after `now`. */
  predicate UsesNonce(steps: seq<Step>, i: nat, nonce: string, now: int) {
    && i < |steps| && steps[i].Register? && VerdictAt(EMPTY, steps, i) == Accepted
    && steps[i].request.nonce == nonce && steps[i].request.deadline > now
  }

  /** An earlier step registered this nonce with a deadline still to come. */
  ghost predicate NonceInUse(steps: seq<Step>, k: nat, nonce: string, now: int) {
    exists i: nat :: i < k && UsesNonce(steps, i, nonce, now)
  }

  lemma UsedIsHeld(steps: seq<Step>, i: nat, k: nat, nonce: string, now: int)
    requires Clocked(steps) && i < k <= |steps| && UsesNonce(steps, i, nonce, now) && steps[k - 1].now <= now
    ensures var window := After(EMPTY, steps, k).window; nonce in window && window[nonce] > now
  {
    HeldSince(EMPTY, steps, i, k, nonce, steps[i].request.deadline);
  }

  lemma NonceInUseExactly(steps: seq<Step>, k: nat, nonce: string)
    requires Clocked(steps) && k < |steps|
    ensures var window := After(EMPTY, steps, k).window;
            nonce in window && window[nonce] > steps[k].now <==> NonceInUse(steps, k, nonce, steps[k].now)
  {
    var (window, now) := (After(EMPTY, steps, k).window, steps[k].now);
    if nonce in window && window[nonce] > now {
      var i, r := WindowOrigin(steps, k, nonce);
      assert UsesNonce(steps, i, nonce, now);
    }
    if NonceInUse(steps, k, nonce, now) {
      var i: nat :| i < k && UsesNonce(steps, i, nonce, now);
      UsedIsHeld(steps, i, k, nonce, now);
    }
  }

  // ----- Entries -----

  /** The step takes the entry out: its response, its cancellation, or a sweep past its deadline. */
  predicate Removes(step: Step, r: PendingRequest) {
    match step
    case Register(_, _) => false
    case Take(id, _) => id == r.correlationId
    case Cancel(id, _) => id == r.correlationId
    case Sweep(now) => r.deadline < now
  }

  /** Step i registered the request and no step since has taken it out. */
  predicate LiveSince(steps: seq<Step>, i: nat, k: nat, r: PendingRequest) {
    i < k <= |steps| && RegisteredAt(steps, i, r) && forall j :: i < j < k ==> !Removes(steps[j], r)
  }

  lemma StepRemoves(s: State, step: Step, r: PendingRequest)
    requires r.correlationId in s.pending && s.pending[r.correlationId] == r
    ensures var pending := Perform(s, step).1.pending;
            (r.correlationId in pending && pending[r.correlationId] == r <==> !Removes(step, r)) &&
            (r.correlationId in pending ==> pending[r.correlationId] == r)
  {
  }

  /** An entry found after a step was there before, or the step registered it. */
  lemma StepAdds(s: State, step: Step, id: string)
    requires id in Perform(s, step).1.pending
    ensures var r := Perform(s, step).1.pending[id];
            || (step.Register? && step.request == r && r.correlationId == id && Perform(s, step).0 == Accepted)
            || (id in s.pending && s.pending[id] == r)
  {
  }

  lemma {:induction false} EntryOrigin(steps: seq<Step>, k: nat, id: string) returns (i: nat)
    requires k <= |steps| && id in After(EMPTY, steps, k).pending
    ensures var r := After(EMPTY, steps, k).pending[id]; r.correlationId == id && LiveSince(steps, i, k, r)
  {
    var r := After(EMPTY, steps, k).pending[id];
    var (before, step) := (After(EMPTY, steps, k - 1), steps[k - 1]);
    StepAdds(before, step, id);
    if id in before.pending && before.pending[id] == r {
      i := EntryOrigin(steps, k - 1, id);
      StepRemoves(before, step, r);
    } else {
      i := k - 1;
    }
  }

  lemma {:induction false} LiveIsPending(steps: seq<Step>, i: nat, k: nat, r: PendingRequest)
    requires LiveSince(steps, i, k, r)
    ensures var pending := After(EMPTY, steps, k).pending; r.correlationId in pending && pending[r.correlationId] == r
    decreases k
  {
    if k > i + 1 {
      LiveIsPending(steps, i, k - 1, r);
      StepRemoves(After(EMPTY, steps, k - 1), steps[k - 1], r);
    }
  }

  ghost predicate Live(steps: seq<Step>, k: nat, r: PendingRequest) {
    exists i :: LiveSince(steps, i, k, r)
  }

  /** An entry is pending exactly while it is live. */
  lemma PendingExactly(steps: seq<Step>, k: nat, r: PendingRequest)
    requires k <= |steps|
    ensures var pending := After(EMPTY, steps, k).pending;
            r.correlationId in pending && pending[r.correlationId] == r <==> Live(steps, k, r)
  {
    var pending := After(EMPTY, steps, k).pending;
    if r.correlationId in pending && pending[r.correlationId] == r {
      var i := EntryOrigin(steps, k, r.correlationId);
      assert LiveSince(steps, i, k, r);
    }
    if Live(steps, k, r) {
      var i :| LiveSince(steps, i, k, r);
      LiveIsPending(steps, i, k, r);
    }
  }

  ghost predicate IdLive(steps: seq<Step>, k: nat, id: string) {
    exists r: PendingRequest :: r.correlationId == id && Live(steps, k, r)
  }

  lemma IdPendingExactly(steps: seq<Step>, k: nat, id: string)
    requires k <= |steps|
    ensures id in After(EMPTY, steps, k).pending <==> IdLive(steps, k, id)
  {
    var pending := After(EMPTY, steps, k).pending;
    if id in pending {
      var i := EntryOrigin(steps, k, id);
      PendingExactly(steps, k, pending[id]);
      assert Live(steps, k, pending[id]);
    }
    if IdLive(steps, k, id) {
      var r: PendingRequest :| r.correlationId == id && Live(steps, k, r);
      PendingExactly(steps, k, r);
    }
  }

  /**
   * Registration, exactly: refused as a duplicate while an entry under its id is live, and
   * otherwise as a reuse while an earlier registration of its nonce has its deadline to come.
   */
  lemma RegisterExactly(steps: seq<Step>, k: nat)
    requires Clocked(steps) && k < |steps| && steps[k].Register?
    ensures var (r, now) := (steps[k].request, steps[k].now);
            VerdictAt(EMPTY, steps, k) ==
            if IdLive(steps, k, r.correlationId) then Refused(DuplicateCorrelationId)
            else if NonceInUse(steps, k, r.nonce, now) then Refused(NonceReuse)
            else Accepted
  {
    var r := steps[k].request;
    IdPendingExactly(steps, k, r.correlationId);
    NonceInUseExactly(steps, k, r.nonce);
  }

  /**
   * Correlation, exactly: a response gets the live entry under its id up to and including its
   * deadline, is reported as expired after it, and as uncorrelatable when none is live.
   */
  lemma TakeExactly(steps: seq<Step>, k: nat, r: PendingRequest)
    requires k < |steps| && steps[k].Take?
    ensures VerdictAt(EMPTY, steps, k) == Response(Done(r)) <==>
            r.correlationId == steps[k].id && Live(steps, k, r) && steps[k].now <= r.deadline
    ensures VerdictAt(EMPTY, steps, k) == Response(Failed(Uncorrelatable)) <==> !IdLive(steps, k, steps[k].id)
    ensures r.correlationId == steps[k].id && Live(steps, k, r) && steps[k].now > r.deadline ==>
            VerdictAt(EMPTY, steps, k) == Response(Failed(Expired))
  {
    var (s, id) := (After(EMPTY, steps, k), steps[k].id);
    PendingExactly(steps, k, r);
    IdPendingExactly(steps, k, id);
    if id in s.pending {
      var i := EntryOrigin(steps, k, id);
      assert s.pending[id].correlationId == id;
    }
  }

  /** A cancellation returns the live entry under its id, if there is one. */
  lemma CancelExactly(steps: seq<Step>, k: nat, r: PendingRequest)
    requires k < |steps| && steps[k].Cancel?
    ensures VerdictAt(EMPTY, steps, k) == Cancelled(Some(r)) <==> r.correlationId == steps[k].id && Live(steps, k, r)
    ensures VerdictAt(EMPTY, steps, k) == Cancelled(None) <==> !IdLive(steps, k, steps[k].id)
  {
    var (s, id) := (After(EMPTY, steps, k), steps[k].id);
    PendingExactly(steps, k, r);
    IdPendingExactly(steps, k, id);
    if id in s.pending {
      var i := EntryOrigin(steps, k, id);
      assert s.pending[id].correlationId == id;
    }
  }
}
