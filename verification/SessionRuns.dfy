/**
 * Runs of a client session. Signing and verification arrive as functions, so that what is
 * proved of a run holds for every signer, hash and verifier.
 */
module SessionRuns {
  import opened Outcome
  import opened Message
  import opened Pipeline

  /** What the session is asked to sign. */
  datatype SignCall = SignCall(
    id: Value, rpcMethod: string, params: seq<Entry>, onBehalfOf: string, audience: string, authorizationHash: string)

  /** A signed request and its hash. */
  datatype SignedCall = SignedCall(text: string, requestHash: string)

  datatype Ops = Ops(
    idText: Value -> string,                                             // the map key of a JSON-RPC id
    sign: (SignCall, nat, int) -> Result<SignedCall>,                    // call, nonces drawn before, instant
    expiry: int -> int,                                                  // the expiry of a request signed at an instant
    responseKey: string -> Result<string>,                               // the map key of a response's id
    verify: (string, Resolver, string) -> Result<VerifiedResponse>)      // response, resolver, expected hash

  /** A verified response carries the hash it was checked against. */
  ghost predicate BindsHash(o: Ops) {
    forall text, resolver, hash :: o.verify(text, resolver, hash).Ok? ==> o.verify(text, resolver, hash).value.requestHash == hash
  }

  datatype Pending = Pending(requestHash: string, expiresAt: int)

  datatype State = State(pending: map<string, Pending>, drawn: nat)

  const EMPTY: State := State(map[], 0)

  // ----- What each operation does -----

  function Sign(o: Ops, s: State, call: SignCall, now: int): (Result<string>, State) {
    var key := o.idText(call.id);
    if key in s.pending then (Err(ReplayDetected), s)
    else
      match o.sign(call, s.drawn, now)
      case Err(e) => (Err(e), s.(drawn := s.drawn + 1))
      case Ok(signed) =>
        (Ok(signed.text), State(s.pending[key := Pending(signed.requestHash, o.expiry(now))], s.drawn + 1))
  }

  function Check(o: Ops, s: State, text: string, resolver: Resolver): Result<VerifiedResponse> {
    var key :- o.responseKey(text);
    if key !in s.pending then Err(MissingEnvelope)
    else o.verify(text, resolver, s.pending[key].requestHash)
  }

  function Verify(o: Ops, s: State, text: string, resolver: Resolver): (Result<VerifiedResponse>, State) {
    var r := Check(o, s, text, resolver);
    if r.Err? then (r, s) else (r, s.(pending := s.pending - {o.responseKey(text).value}))
  }

  function Expire(s: State, now: int): State {
    s.(pending := map key | key in s.pending && now < s.pending[key].expiresAt :: s.pending[key])
  }

  // ----- Runs -----

  datatype Step =
    | SignStep(call: SignCall, now: int)
    | VerifyStep(text: string, resolver: Resolver)
    | CancelStep(id: Value)
    | ExpireStep(now: int)

  datatype Event =
    | Signed(signed: SignedCall)
    | Verified(response: VerifiedResponse)
    | Cancelled
    | Expired(count: int)
    | Nothing

  function Perform(o: Ops, s: State, step: Step): (Event, State) {
    match step
    case SignStep(call, now) =>
      var (r, after) := Sign(o, s, call, now);
      (if r.Ok? then Signed(o.sign(call, s.drawn, now).value) else Nothing, after)
    case VerifyStep(text, resolver) =>
      var (r, after) := Verify(o, s, text, resolver);
      (if r.Ok? then Verified(r.value) else Nothing, after)
    case CancelStep(id) =>
      (if o.idText(id) in s.pending then Cancelled else Nothing, s.(pending := s.pending - {o.idText(id)}))
    case ExpireStep(now) => (Expired(|s.pending| - |Expire(s, now).pending|), Expire(s, now))
  }

  function After(o: Ops, start: State, steps: seq<Step>, k: nat): State
    requires k <= |steps|
  {
    if k == 0 then start else Perform(o, After(o, start, steps, k - 1), steps[k - 1]).1
  }

  function EventAt(o: Ops, start: State, steps: seq<Step>, k: nat): Event
    requires k < |steps|
  {
    Perform(o, After(o, start, steps, k), steps[k]).0
  }

  // ----- Conservation -----

  datatype Tally = Tally(signed: int, verified: int, cancelled: int, expired: int)

  function Count(t: Tally, e: Event): Tally {
    match e
    case Signed(_) => t.(signed := t.signed + 1)
    case Verified(_) => t.(verified := t.verified + 1)
    case Cancelled => t.(cancelled := t.cancelled + 1)
    case Expired(n) => t.(expired := t.expired + n)
    case Nothing => t
  }

  function TallyOf(o: Ops, start: State, steps: seq<Step>, k: nat): Tally
    requires k <= |steps|
  {
    if k == 0 then Tally(0, 0, 0, 0)
    else Count(TallyOf(o, start, steps, k - 1), EventAt(o, start, steps, k - 1))
  }

  lemma MapSizes<V>(m: map<string, V>, key: string, v: V)
    ensures key !in m ==> |m[key := v]| == |m| + 1
    ensures |m - {key}| == if key in m then |m| - 1 else |m|
  {
    assert m[key := v].Keys == m.Keys + {key};
    assert (m - {key}).Keys == m.Keys - {key};
  }

  /** How an event changes the number of pending entries. */
  function Weight(e: Event): int {
    match e
    case Signed(_) => 1
    case Verified(_) => -1
    case Cancelled => -1
    case Expired(n) => -n
    case Nothing => 0
  }

  predicate Weighs(o: Ops, s: State, step: Step) {
    |Perform(o, s, step).1.pending| == |s.pending| + Weight(Perform(o, s, step).0)
  }

  lemma StepWeighs(o: Ops, s: State, step: Step)
    ensures Weighs(o, s, step)
  {
    match step
    case SignStep(call, now) => SignWeighs(o, s, call, now);
    case VerifyStep(text, resolver) => VerifyWeighs(o, s, text, resolver);
    case CancelStep(id) => CancelWeighs(o, s, id);
    case ExpireStep(_) =>
  }

  lemma SignWeighs(o: Ops, s: State, call: SignCall, now: int)
    ensures Weighs(o, s, SignStep(call, now))
  {
    SignSize(o, s, call, now);
  }

  lemma VerifyWeighs(o: Ops, s: State, text: string, resolver: Resolver)
    ensures Weighs(o, s, VerifyStep(text, resolver))
  {
    VerifySize(o, s, text, resolver);
  }

  lemma CancelWeighs(o: Ops, s: State, id: Value)
    ensures Weighs(o, s, CancelStep(id))
  {
    MapSizes(s.pending, o.idText(id), Pending("", 0));
  }

  lemma SignSize(o: Ops, s: State, call: SignCall, now: int)
    ensures var (r, after) := Sign(o, s, call, now);
            |after.pending| == if r.Ok? then |s.pending| + 1 else |s.pending|
  {
    var after := Sign(o, s, call, now).1;
    var key := o.idText(call.id);
    if key in after.pending {
      MapSizes(s.pending, key, after.pending[key]);
    }
  }

  lemma VerifySize(o: Ops, s: State, text: string, resolver: Resolver)
    ensures var (r, after) := Verify(o, s, text, resolver);
            |after.pending| == if r.Ok? then |s.pending| - 1 else |s.pending|
  {
    if Check(o, s, text, resolver).Ok? {
      MapSizes(s.pending, o.responseKey(text).value, Pending("", 0));
    }
  }

  /** What the tally says is pending. */
  function Balance(t: Tally): int {
    t.signed - t.verified - t.cancelled - t.expired
  }

  lemma CountWeighs(t: Tally, e: Event)
    ensures Balance(Count(t, e)) == Balance(t) + Weight(e)
  {
  }

  /** Counting a step's event keeps the balance equal to the number of pending entries. */
  lemma BalanceStep(o: Ops, s: State, step: Step, t: Tally)
    requires Balance(t) == |s.pending|
    ensures Balance(Count(t, Perform(o, s, step).0)) == |Perform(o, s, step).1.pending|
  {
    var e := Perform(o, s, step).0;
    CountWeighs(t, e);
    StepWeighs(o, s, step);
  }

  lemma RunStep(o: Ops, steps: seq<Step>, k: nat)
    requires 0 < k <= |steps|
    ensures var s := After(o, EMPTY, steps, k - 1);
            && After(o, EMPTY, steps, k) == Perform(o, s, steps[k - 1]).1
            && TallyOf(o, EMPTY, steps, k) == Count(TallyOf(o, EMPTY, steps, k - 1), Perform(o, s, steps[k - 1]).0)
  {
  }

  predicate Balanced(t: Tally, s: State) {
    Balance(t) == |s.pending|
  }

  lemma BalancedNext(o: Ops, s: State, step: Step, t: Tally, s': State, t': Tally)
    requires Balanced(t, s) && s' == Perform(o, s, step).1 && t' == Count(t, Perform(o, s, step).0)
    ensures Balanced(t', s')
  {
    BalanceStep(o, s, step, t);
  }

  lemma {:induction false} BalanceHolds(o: Ops, steps: seq<Step>, k: nat)
    requires k <= |steps|
    ensures Balanced(TallyOf(o, EMPTY, steps, k), After(o, EMPTY, steps, k))
  {
    if k > 0 {
      BalanceHolds(o, steps, k - 1);
      RunStep(o, steps, k);
      BalancedNext(o, After(o, EMPTY, steps, k - 1), steps[k - 1], TallyOf(o, EMPTY, steps, k - 1),
                   After(o, EMPTY, steps, k), TallyOf(o, EMPTY, steps, k));
    }
  }

  /** In every run, what was signed is pending, or was verified, cancelled or expired: each once. */
  lemma Conservation(o: Ops, steps: seq<Step>, k: nat)
    requires k <= |steps|
    ensures var t := TallyOf(o, EMPTY, steps, k);
            t.signed == |After(o, EMPTY, steps, k).pending| + t.verified + t.cancelled + t.expired
  {
    BalanceHolds(o, steps, k);
  }

  // ----- Which sign a response consumes -----

  /** How step k moves the origins: a sign is an origin, and what is no longer pending has none. */
  function MoveOrigins(o: Ops, origins: map<string, nat>, s: State, step: Step, k: nat): map<string, nat> {
    var (event, after) := Perform(o, s, step);
    if event.Signed? && step.SignStep? then origins[o.idText(step.call.id) := k]
    else map key | key in origins && key in after.pending :: origins[key]
  }

  /** For each pending key, the step that signed its request. */
  function Origins(o: Ops, steps: seq<Step>, k: nat): map<string, nat>
    requires k <= |steps|
  {
    if k == 0 then map[]
    else MoveOrigins(o, Origins(o, steps, k - 1), After(o, EMPTY, steps, k - 1), steps[k - 1], k - 1)
  }

  /** The events of the first k steps. */
  function Events(o: Ops, steps: seq<Step>, k: nat): (events: seq<Event>)
    requires k <= |steps|
    ensures |events| == k
  {
    if k == 0 then [] else Events(o, steps, k - 1) + [EventAt(o, EMPTY, steps, k - 1)]
  }

  lemma {:induction false} EventsAre(o: Ops, steps: seq<Step>, k: nat, i: nat)
    requires i < k <= |steps|
    ensures Events(o, steps, k)[i] == EventAt(o, EMPTY, steps, i)
  {
    if i < k - 1 {
      EventsAre(o, steps, k - 1, i);
    }
  }

  /** Step i signed the request whose hash this entry stores, under this key. */
  predicate SignedAs(o: Ops, steps: seq<Step>, events: seq<Event>, i: nat, key: string, entry: Pending) {
    && i < |steps| && i < |events| && steps[i].SignStep? && events[i].Signed?
    && o.idText(steps[i].call.id) == key
    && events[i].signed.requestHash == entry.requestHash
  }

  lemma StepKeeps(o: Ops, s: State, step: Step)
    ensures var (e, after) := Perform(o, s, step);
            if e.Signed? then
              && step.SignStep? && o.idText(step.call.id) !in s.pending
              && after.pending.Keys == s.pending.Keys + {o.idText(step.call.id)}
              && (forall key :: key in s.pending ==> after.pending[key] == s.pending[key])
              && e.signed.requestHash == after.pending[o.idText(step.call.id)].requestHash
            else forall key :: key in after.pending ==> key in s.pending && after.pending[key] == s.pending[key]
  {
  }

  /** Every pending entry has an origin: an earlier sign under its key, with its hash. */
  predicate Traced(o: Ops, steps: seq<Step>, events: seq<Event>, origins: map<string, nat>, pending: map<string, Pending>) {
    && origins.Keys == pending.Keys
    && forall key :: key in origins ==> SignedAs(o, steps, events, origins[key], key, pending[key])
  }

  lemma MoveTraced(o: Ops, steps: seq<Step>, events: seq<Event>, origins: map<string, nat>, s: State, k: nat)
    requires |events| == k < |steps| && Traced(o, steps, events, origins, s.pending)
    ensures var (event, after) := Perform(o, s, steps[k]);
            Traced(o, steps, events + [event], MoveOrigins(o, origins, s, steps[k], k), after.pending)
  {
    StepKeeps(o, s, steps[k]);
    var (event, after) := Perform(o, s, steps[k]);
    var moved := MoveOrigins(o, origins, s, steps[k], k);
    forall key | key in moved ensures SignedAs(o, steps, events + [event], moved[key], key, after.pending[key]) {
      if key in origins {
        assert SignedAs(o, steps, events, origins[key], key, s.pending[key]);
      }
    }
  }

  lemma {:induction false} OriginsSigned(o: Ops, steps: seq<Step>, k: nat)
    requires k <= |steps|
    ensures Traced(o, steps, Events(o, steps, k), Origins(o, steps, k), After(o, EMPTY, steps, k).pending)
  {
    if k > 0 {
      OriginsSigned(o, steps, k - 1);
      MoveTraced(o, steps, Events(o, steps, k - 1), Origins(o, steps, k - 1), After(o, EMPTY, steps, k - 1), k - 1);
    }
  }

  /** An accepted response's id is pending, and the accepted hash is the stored one. */
  lemma VerifiedIsPending(o: Ops, s: State, step: Step)
    requires BindsHash(o) && Perform(o, s, step).0.Verified?
    ensures step.VerifyStep? && o.responseKey(step.text).Ok?
    ensures var key := o.responseKey(step.text).value;
            && key in s.pending
            && Perform(o, s, step).0.response.requestHash == s.pending[key].requestHash
            && Perform(o, s, step).1.pending == s.pending - {key}
  {
  }

  /** The sign that an accepted response at step j consumes. */
  function Consumed(o: Ops, steps: seq<Step>, j: nat): Option<nat>
    requires j < |steps|
  {
    if !steps[j].VerifyStep? || o.responseKey(steps[j].text).Err? then None
    else
      var key := o.responseKey(steps[j].text).value;
      var origins := Origins(o, steps, j);
      if key in origins then Some(origins[key]) else None
  }

  /** Each accepted response consumes an earlier sign under its id, and carries that request's hash. */
  lemma ResponseConsumesSign(o: Ops, steps: seq<Step>, j: nat)
    requires BindsHash(o) && j < |steps| && EventAt(o, EMPTY, steps, j).Verified?
    ensures steps[j].VerifyStep? && o.responseKey(steps[j].text).Ok? && Consumed(o, steps, j).Some?
    ensures var i := Consumed(o, steps, j).value;
            && i < j && steps[i].SignStep? && EventAt(o, EMPTY, steps, i).Signed?
            && o.idText(steps[i].call.id) == o.responseKey(steps[j].text).value
            && EventAt(o, EMPTY, steps, i).signed.requestHash == EventAt(o, EMPTY, steps, j).response.requestHash
  {
    OriginsSigned(o, steps, j);
    VerifiedIsPending(o, After(o, EMPTY, steps, j), steps[j]);
    EventsAre(o, steps, j, Consumed(o, steps, j).value);
  }

  /** An origin is the last step's, or it was one before. */
  lemma OriginsGrow(o: Ops, steps: seq<Step>, k: nat, key: string)
    requires 0 < k <= |steps| && key in Origins(o, steps, k)
    ensures Origins(o, steps, k)[key] == k - 1 ||
            (key in Origins(o, steps, k - 1) && Origins(o, steps, k - 1)[key] == Origins(o, steps, k)[key])
  {
  }

  lemma OriginRemoved(o: Ops, steps: seq<Step>, j: nat, key: string)
    requires BindsHash(o) && j < |steps| && EventAt(o, EMPTY, steps, j).Verified?
    requires key in Origins(o, steps, j + 1) && Consumed(o, steps, j).Some?
    ensures Origins(o, steps, j + 1)[key] != Consumed(o, steps, j).value
  {
    VerifiedIsPending(o, After(o, EMPTY, steps, j), steps[j]);
    OriginsSigned(o, steps, j);
    OriginsSigned(o, steps, j + 1);
    var gone := o.responseKey(steps[j].text).value;
    assert key != gone;
    assert Origins(o, steps, j + 1)[key] == Origins(o, steps, j)[key];
  }

  predicate Free(origins: map<string, nat>, i: nat) {
    forall key :: key in origins ==> origins[key] != i
  }

  lemma StepFrees(o: Ops, steps: seq<Step>, i: nat, k: nat)
    requires i + 1 < k <= |steps| && Free(Origins(o, steps, k - 1), i)
    ensures Free(Origins(o, steps, k), i)
  {
    var origins := Origins(o, steps, k);
    forall key | key in origins ensures origins[key] != i {
      OriginsGrow(o, steps, k, key);
    }
  }

  lemma {:induction false} StaysFree(o: Ops, steps: seq<Step>, i: nat, j: nat, k: nat)
    requires i < j < k <= |steps| && Free(Origins(o, steps, j + 1), i)
    ensures Free(Origins(o, steps, k), i)
  {
    if k > j + 1 {
      StaysFree(o, steps, i, j, k - 1);
      StepFrees(o, steps, i, k);
    }
  }

  /** Once consumed, a sign is no pending entry's origin again. */
  lemma OriginGone(o: Ops, steps: seq<Step>, j: nat, k: nat)
    requires BindsHash(o) && j < k <= |steps| && EventAt(o, EMPTY, steps, j).Verified?
    ensures Consumed(o, steps, j).Some? && Free(Origins(o, steps, k), Consumed(o, steps, j).value)
  {
    ResponseConsumesSign(o, steps, j);
    var origins := Origins(o, steps, j + 1);
    forall key | key in origins ensures origins[key] != Consumed(o, steps, j).value {
      OriginRemoved(o, steps, j, key);
    }
    StaysFree(o, steps, Consumed(o, steps, j).value, j, k);
  }

  /** No sign is consumed by two responses. */
  lemma SignConsumedOnce(o: Ops, steps: seq<Step>, j: nat, k: nat)
    requires BindsHash(o) && j < k < |steps|
    requires EventAt(o, EMPTY, steps, j).Verified? && EventAt(o, EMPTY, steps, k).Verified?
    ensures Consumed(o, steps, j).Some? && Consumed(o, steps, k).Some?
    ensures Consumed(o, steps, j) != Consumed(o, steps, k)
  {
    ResponseConsumesSign(o, steps, j);
    ResponseConsumesSign(o, steps, k);
    OriginGone(o, steps, j, k);
  }
}
