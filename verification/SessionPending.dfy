/** What a client session holds pending, and what it accepts, told by the steps of its run. */
module SessionPending {
  import opened Outcome
  import opened SessionRuns

  /** A run from the empty session: its steps, the states around them and their events. */
  datatype Run = Run(steps: seq<Step>, states: seq<State>, events: seq<Event>)

  predicate IsStep(o: Ops, r: Run, k: nat)
    requires k < |r.steps| == |r.events| && |r.states| == |r.steps| + 1
  {
    (r.events[k], r.states[k + 1]) == Perform(o, r.states[k], r.steps[k])
  }

  ghost predicate IsRun(o: Ops, r: Run) {
    && |r.events| == |r.steps| && |r.states| == |r.steps| + 1 && r.states[0] == EMPTY
    && forall k: nat :: k < |r.steps| ==> IsStep(o, r, k)
  }

  lemma NextIs(o: Ops, r: Run, k: nat)
    requires IsRun(o, r) && k < |r.steps| && r.states[k] == After(o, EMPTY, r.steps, k)
    ensures r.states[k + 1] == After(o, EMPTY, r.steps, k + 1)
  {
    assert IsStep(o, r, k);
  }

  /** These are the runs of `SessionRuns`. */
  lemma {:induction false} RunIs(o: Ops, r: Run, k: nat)
    requires IsRun(o, r) && k <= |r.steps|
    ensures r.states[k] == After(o, EMPTY, r.steps, k)
  {
    if k > 0 {
      RunIs(o, r, k - 1);
      NextIs(o, r, k - 1);
    }
  }

  // ----- Live entries -----

  /** Step i signed a request under this key, with this hash and expiry. */
  predicate SignedAt(o: Ops, r: Run, i: nat, key: string, entry: Pending) {
    && i < |r.steps| == |r.events| && r.steps[i].SignStep? && r.events[i].Signed?
    && o.idText(r.steps[i].call.id) == key
    && entry == Pending(r.events[i].signed.requestHash, o.expiry(r.steps[i].now))
  }

  /** The step takes the entry out: its verified response, its cancellation, or an expiry from its instant on. */
  predicate Removes(o: Ops, step: Step, event: Event, key: string, entry: Pending) {
    match step
    case SignStep(_, _) => false
    case VerifyStep(text, _) => event.Verified? && o.responseKey(text) == Ok(key)
    case CancelStep(id) => o.idText(id) == key
    case ExpireStep(now) => entry.expiresAt <= now
  }

  /** Step i signed the request and no step since has taken it out. */
  predicate LiveSince(o: Ops, r: Run, i: nat, k: nat, key: string, entry: Pending) {
    && i < k <= |r.steps| == |r.events| && SignedAt(o, r, i, key, entry)
    && forall j :: i < j < k ==> !Removes(o, r.steps[j], r.events[j], key, entry)
  }

  ghost predicate Live(o: Ops, r: Run, k: nat, key: string, entry: Pending) {
    exists i: nat :: LiveSince(o, r, i, k, key, entry)
  }

  predicate Holds(s: State, key: string, entry: Pending) {
    key in s.pending && s.pending[key] == entry
  }

  lemma StepRemoves(o: Ops, s: State, step: Step, key: string, entry: Pending)
    requires Holds(s, key, entry)
    ensures var (event, after) := Perform(o, s, step);
            if Removes(o, step, event, key, entry) then key !in after.pending else Holds(after, key, entry)
  {
  }

  /** An entry found after a step was there before, or the step signed it. */
  lemma StepAdds(o: Ops, s: State, step: Step, key: string, entry: Pending)
    requires Holds(Perform(o, s, step).1, key, entry)
    ensures var event := Perform(o, s, step).0;
            || Holds(s, key, entry)
            || (&& step.SignStep? && event.Signed? && o.idText(step.call.id) == key
                && entry == Pending(event.signed.requestHash, o.expiry(step.now)))
  {
  }

  lemma SignAdds(o: Ops, s: State, step: Step)
    requires Perform(o, s, step).0.Signed?
    ensures var (event, after) := Perform(o, s, step);
            && step.SignStep? && o.idText(step.call.id) !in s.pending
            && o.sign(step.call, s.drawn, step.now) == Ok(event.signed)
            && Holds(after, o.idText(step.call.id), Pending(event.signed.requestHash, o.expiry(step.now)))
            && after.drawn == s.drawn + 1
  {
  }

  lemma {:induction false} EntryOrigin(o: Ops, r: Run, k: nat, key: string, entry: Pending) returns (i: nat)
    requires IsRun(o, r) && k <= |r.steps| && Holds(r.states[k], key, entry)
    ensures LiveSince(o, r, i, k, key, entry)
  {
    assert IsStep(o, r, k - 1);
    StepAdds(o, r.states[k - 1], r.steps[k - 1], key, entry);
    if Holds(r.states[k - 1], key, entry) {
      i := EntryOrigin(o, r, k - 1, key, entry);
      StepRemoves(o, r.states[k - 1], r.steps[k - 1], key, entry);
    } else {
      i := k - 1;
    }
  }

  lemma StepKeepsLive(o: Ops, r: Run, k: nat, key: string, entry: Pending)
    requires IsRun(o, r) && k < |r.steps| && Holds(r.states[k], key, entry)
    requires !Removes(o, r.steps[k], r.events[k], key, entry)
    ensures Holds(r.states[k + 1], key, entry)
  {
    assert IsStep(o, r, k);
    StepRemoves(o, r.states[k], r.steps[k], key, entry);
  }

  lemma SignHolds(o: Ops, r: Run, i: nat, key: string, entry: Pending)
    requires IsRun(o, r) && SignedAt(o, r, i, key, entry)
    ensures key !in r.states[i].pending && Holds(r.states[i + 1], key, entry)
  {
    assert IsStep(o, r, i);
    SignAdds(o, r.states[i], r.steps[i]);
  }

  lemma {:induction false} LiveIsPending(o: Ops, r: Run, i: nat, k: nat, key: string, entry: Pending)
    requires IsRun(o, r) && LiveSince(o, r, i, k, key, entry)
    ensures Holds(r.states[k], key, entry)
    decreases k
  {
    if k > i + 1 {
      LiveIsPending(o, r, i, k - 1, key, entry);
      StepKeepsLive(o, r, k - 1, key, entry);
    } else {
      SignHolds(o, r, i, key, entry);
    }
  }

  /**
   * In every run, an entry is pending exactly while it is live: from the sign that stored its
   * hash and expiry until its verified response, its cancellation, or an expiry step at or
   * after its instant.
   */
  lemma PendingExactly(o: Ops, r: Run, k: nat, key: string, entry: Pending)
    requires IsRun(o, r) && k <= |r.steps|
    ensures Holds(r.states[k], key, entry) <==> Live(o, r, k, key, entry)
  {
    if Holds(r.states[k], key, entry) {
      var i := EntryOrigin(o, r, k, key, entry);
    }
    if Live(o, r, k, key, entry) {
      var i: nat :| LiveSince(o, r, i, k, key, entry);
      LiveIsPending(o, r, i, k, key, entry);
    }
  }

  // ----- Expiry -----

  /** The step signs, verifies or cancels under the key. */
  predicate Touches(o: Ops, step: Step, event: Event, key: string) {
    match step
    case SignStep(call, _) => event.Signed? && o.idText(call.id) == key
    case VerifyStep(text, _) => event.Verified? && o.responseKey(text) == Ok(key)
    case CancelStep(id) => o.idText(id) == key
    case ExpireStep(_) => false
  }

  /** No step after step i and before step k signs, verifies or cancels under the key. */
  predicate Untouched(o: Ops, r: Run, i: nat, k: nat, key: string)
    requires k <= |r.steps| == |r.events|
  {
    forall j :: i < j < k ==> !Touches(o, r.steps[j], r.events[j], key)
  }

  /** No expiry step between i and k comes at the instant `end` or later. */
  predicate NoExpiryFrom(r: Run, i: nat, k: nat, end: int)
    requires k <= |r.steps|
  {
    forall j :: i < j < k && r.steps[j].ExpireStep? ==> r.steps[j].now < end
  }

  lemma StepExpires(o: Ops, step: Step, event: Event, key: string, entry: Pending)
    requires !Touches(o, step, event, key)
    ensures Removes(o, step, event, key, entry) <==> step.ExpireStep? && entry.expiresAt <= step.now
  {
  }

  lemma UntouchedLives(o: Ops, r: Run, i: nat, k: nat, key: string, entry: Pending)
    requires i < k <= |r.steps| == |r.events| && SignedAt(o, r, i, key, entry) && Untouched(o, r, i, k, key)
    ensures LiveSince(o, r, i, k, key, entry) <==> NoExpiryFrom(r, i, k, entry.expiresAt)
  {
    forall j | i < j < k
      ensures Removes(o, r.steps[j], r.events[j], key, entry) <==>
              r.steps[j].ExpireStep? && entry.expiresAt <= r.steps[j].now
    {
      StepExpires(o, r.steps[j], r.events[j], key, entry);
    }
  }

  /** Under an untouched key, only the entry signed before can be live. */
  lemma UntouchedOrigin(o: Ops, r: Run, i: nat, k: nat, key: string, entry: Pending, origin: nat, found: Pending)
    requires IsRun(o, r) && i < k <= |r.steps| && SignedAt(o, r, i, key, entry) && Untouched(o, r, i, k, key)
    requires LiveSince(o, r, origin, k, key, found)
    ensures origin == i && found == entry
  {
    if origin < i {
      LiveIsPending(o, r, origin, i, key, found);
      SignHolds(o, r, i, key, entry);
    }
  }

  /**
   * Left alone, a signed request stays pending through every expiry step before its expiry
   * instant and through none from that instant on.
   */
  lemma SurvivesExactly(o: Ops, r: Run, i: nat, k: nat, key: string, entry: Pending)
    requires IsRun(o, r) && i < k <= |r.steps| && SignedAt(o, r, i, key, entry) && Untouched(o, r, i, k, key)
    ensures key in r.states[k].pending <==> NoExpiryFrom(r, i, k, entry.expiresAt)
  {
    UntouchedLives(o, r, i, k, key, entry);
    if NoExpiryFrom(r, i, k, entry.expiresAt) {
      LiveIsPending(o, r, i, k, key, entry);
    }
    if key in r.states[k].pending {
      var origin := EntryOrigin(o, r, k, key, r.states[k].pending[key]);
      UntouchedOrigin(o, r, i, k, key, entry, origin, r.states[k].pending[key]);
    }
  }

  // ----- Verdicts -----

  /** A live entry under the response's key has a hash the response verifies against. */
  ghost predicate Answers(o: Ops, r: Run, k: nat, step: Step)
    requires step.VerifyStep?
  {
    exists key: string, entry: Pending ::
      && o.responseKey(step.text) == Ok(key) && Live(o, r, k, key, entry)
      && o.verify(step.text, step.resolver, entry.requestHash).Ok?
  }

  lemma VerifyStepAccepts(o: Ops, s: State, step: Step)
    requires step.VerifyStep?
    ensures Perform(o, s, step).0.Verified? <==>
            && o.responseKey(step.text).Ok? && o.responseKey(step.text).value in s.pending
            && o.verify(step.text, step.resolver, s.pending[o.responseKey(step.text).value].requestHash).Ok?
  {
  }

  /** A response is accepted exactly when a live entry under its key has a hash it verifies against. */
  lemma AcceptedExactly(o: Ops, r: Run, k: nat)
    requires IsRun(o, r) && k < |r.steps| && r.steps[k].VerifyStep?
    ensures r.events[k].Verified? <==> Answers(o, r, k, r.steps[k])
  {
    var (s, step) := (r.states[k], r.steps[k]);
    assert IsStep(o, r, k);
    VerifyStepAccepts(o, s, step);
    if r.events[k].Verified? {
      var key := o.responseKey(step.text).value;
      PendingExactly(o, r, k, key, s.pending[key]);
    }
    forall key, entry | o.responseKey(step.text) == Ok(key) && Live(o, r, k, key, entry) ensures Holds(s, key, entry) {
      PendingExactly(o, r, k, key, entry);
    }
  }

  lemma SignStepSigns(o: Ops, s: State, step: Step)
    requires step.SignStep?
    ensures Perform(o, s, step).0.Signed? <==>
            o.idText(step.call.id) !in s.pending && o.sign(step.call, s.drawn, step.now).Ok?
  {
  }

  /** A request is signed exactly when no entry under its key is live and the signer signs it. */
  lemma SignedExactly(o: Ops, r: Run, k: nat)
    requires IsRun(o, r) && k < |r.steps| && r.steps[k].SignStep?
    ensures r.events[k].Signed? <==>
            && (forall entry :: !Live(o, r, k, o.idText(r.steps[k].call.id), entry))
            && o.sign(r.steps[k].call, r.states[k].drawn, r.steps[k].now).Ok?
  {
    var (s, key) := (r.states[k], o.idText(r.steps[k].call.id));
    assert IsStep(o, r, k);
    SignStepSigns(o, s, r.steps[k]);
    if key in s.pending {
      PendingExactly(o, r, k, key, s.pending[key]);
    }
    forall entry | Live(o, r, k, key, entry) ensures key in s.pending {
      PendingExactly(o, r, k, key, entry);
    }
  }

  // ----- Nonces -----

  lemma StepDraws(o: Ops, s: State, step: Step)
    ensures s.drawn <= Perform(o, s, step).1.drawn
  {
  }

  lemma {:induction false} DrawnGrows(o: Ops, r: Run, i: nat, k: nat)
    requires IsRun(o, r) && i <= k <= |r.steps|
    ensures r.states[i].drawn <= r.states[k].drawn
    decreases k
  {
    if i < k {
      DrawnGrows(o, r, i, k - 1);
      assert IsStep(o, r, k - 1);
      StepDraws(o, r.states[k - 1], r.steps[k - 1]);
    }
  }

  /** No two signed requests draw the same nonce. */
  lemma NonceDrawnOnce(o: Ops, r: Run, i: nat, j: nat)
    requires IsRun(o, r) && i < j < |r.steps| && r.events[i].Signed?
    ensures r.states[i].drawn < r.states[j].drawn
  {
    assert IsStep(o, r, i);
    SignAdds(o, r.states[i], r.steps[i]);
    DrawnGrows(o, r, i + 1, j);
  }
}
