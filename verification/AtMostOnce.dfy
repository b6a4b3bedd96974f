/** Runs of the verifiers and the pruner over one replay cache: no request is accepted twice. */
module AtMostOnce {
  import opened Outcome
  import opened Envelope
  import opened Pipeline
  import opened Verification
  import Binding
  import Message
  import Replay
  import Signing
  import Timestamp

  type Value = Message.Value

  /** Who verifies a step's message: one profile, or the dual verifier under a policy. */
  datatype Verifier = Only(profile: Profile) | Dual(policy: Policy)

  datatype Step =
    | Verify(verifier: Verifier, raw: string, resolver: Resolver, config: Config, now: int)
    | Prune(now: int)

  function Call(w: World, v: Verifier, raw: string, resolver: Resolver, cache: Replay.Cache, config: Config, now: int)
    : (Result<VerifiedRequest>, Replay.Cache)
  {
    match v
    case Only(p) => VerifyUnder(w, p, raw, resolver, cache, config, now)
    case Dual(policy) => VerifyDispatch(w, raw, resolver, cache, config, now, policy)
  }

  function Take(w: World, cache: Replay.Cache, s: Step): (Option<VerifiedRequest>, Replay.Cache) {
    match s
    case Prune(now) => (None, Replay.Pruned(cache, now))
    case Verify(v, raw, resolver, config, now) =>
      var (r, after) := Call(w, v, raw, resolver, cache, config, now);
      (if r.Ok? then Some(r.value) else None, after)
  }

  /** The cache after the first k steps. */
  function After(w: World, start: Replay.Cache, steps: seq<Step>, k: nat): Replay.Cache
    requires k <= |steps|
  {
    if k == 0 then start else Take(w, After(w, start, steps, k - 1), steps[k - 1]).1
  }

  /** The request step k accepted, if it accepted one. */
  function Accepted(w: World, start: Replay.Cache, steps: seq<Step>, k: nat): Option<VerifiedRequest>
    requires k < |steps|
  {
    Take(w, After(w, start, steps, k), steps[k]).0
  }

  /** The clock is an i64 that never runs backwards. */
  predicate Clocked(steps: seq<Step>) {
    && (forall i :: 0 <= i < |steps| ==> IsI64(steps[i].now))
    && (forall i :: 0 <= i < |steps| && steps[i].Verify? ==> IsI64(steps[i].config.maxClockSkew))
    && (forall i, j :: 0 <= i <= j < |steps| ==> steps[i].now <= steps[j].now)
  }

  function NonceOf(r: VerifiedRequest): Replay.ReplayKey {
    Replay.ReplayKey(r.signer, r.audience, r.nonce)
  }

  // ----- One step -----

  /** The profile under which a call accepted. */
  lemma CallAccepts(w: World, v: Verifier, raw: string, resolver: Resolver, cache: Replay.Cache, config: Config, now: int)
    returns (p: Profile)
    requires IsI64(now) && IsI64(config.maxClockSkew)
    ensures var c := Call(w, v, raw, resolver, cache, config, now);
            if c.0.Ok? then c == VerifyUnder(w, p, raw, resolver, cache, config, now) else c.1 == cache
  {
    p := Draft02;
    match v
    case Only(q) => p := q; AcceptedExactly(w, p, raw, resolver, cache, config, now);
    case Dual(policy) =>
      DispatchExactly(w, raw, resolver, cache, config, now, policy);
      if VerifyUnder(w, Draft01, raw, resolver, cache, config, now).0.Ok? { p := Draft01; }
  }

  /** An accepted call's record states the envelope's fields, timely at `now`, and adds its nonce. */
  lemma CallRecords(w: World, v: Verifier, raw: string, resolver: Resolver, cache: Replay.Cache, config: Config, now: int)
    requires IsI64(now) && IsI64(config.maxClockSkew)
    requires Call(w, v, raw, resolver, cache, config, now).0.Ok?
    ensures var (r, after) := Call(w, v, raw, resolver, cache, config, now);
            && w.decode(raw).Some?
            && LocateEnvelope(w.decode(raw).value, Signing.Request).Ok?
            && var env := ReadCommon(LocateEnvelope(w.decode(raw).value, Signing.Request).value);
            && (r.value.signer, r.value.audience, r.value.nonce, r.value.expiresAt) ==
               (env.signer, env.audience, env.nonce, env.expiresAt)
            && Timely(env.issuedAt, env.expiresAt, config.maxClockSkew, now)
            && KeyOf(env) !in cache.seen
            && after == Recorded(cache, env)
  {
    var p := CallAccepts(w, v, raw, resolver, cache, config, now);
    AcceptedExactly(w, p, raw, resolver, cache, config, now);
    AcceptedRecord(w, p, raw, resolver, cache, config, now);
    Binding.ClaimsCommon(p, w.decode(raw).value);
  }

  /** A step forgets only nonces whose retain-until has passed. */
  lemma StepKeeps(w: World, cache: Replay.Cache, s: Step, key: Replay.ReplayKey)
    requires IsI64(s.now) && (s.Verify? ==> IsI64(s.config.maxClockSkew))
    ensures var after := Take(w, cache, s).1;
            && after.skew == cache.skew
            && (key in cache.seen ==> (key in after.seen && after.seen[key] == cache.seen[key]) || cache.seen[key] < s.now)
  {
    if s.Verify? {
      var c := Call(w, s.verifier, s.raw, s.resolver, cache, s.config, s.now);
      var p := CallAccepts(w, s.verifier, s.raw, s.resolver, cache, s.config, s.now);
      if c.0.Ok? {
        CallRecords(w, s.verifier, s.raw, s.resolver, cache, s.config, s.now);
      }
    }
  }

  /** An accepting step found its nonce absent, and leaves it with its retain-until. */
  lemma StepAccepts(w: World, cache: Replay.Cache, s: Step)
    requires IsI64(s.now) && (s.Verify? ==> IsI64(s.config.maxClockSkew))
    requires Take(w, cache, s).0.Some?
    ensures var (r, after) := Take(w, cache, s);
            && NonceOf(r.value) !in cache.seen
            && Timestamp.Parse(r.value.expiresAt).Ok?
            && NonceOf(r.value) in after.seen
            && after.seen[NonceOf(r.value)] == Replay.RetainUntil(Timestamp.Parse(r.value.expiresAt).value, cache.skew)
  {
    CallRecords(w, s.verifier, s.raw, s.resolver, cache, s.config, s.now);
  }

  // ----- Runs -----

  lemma {:induction false} SkewIsFixed(w: World, start: Replay.Cache, steps: seq<Step>, k: nat)
    requires Clocked(steps) && k <= |steps|
    ensures After(w, start, steps, k).skew == start.skew
  {
    if k > 0 {
      SkewIsFixed(w, start, steps, k - 1);
      StepKeeps(w, After(w, start, steps, k - 1), steps[k - 1], Replay.ReplayKey("", "", ""));
    }
  }

  /** The cache holds the nonce with its retain-until, or that instant has passed. */
  predicate Held(c: Replay.Cache, key: Replay.ReplayKey, retain: int, now: int) {
    (key in c.seen && c.seen[key] == retain) || retain < now
  }

  lemma StepHolds(w: World, cache: Replay.Cache, s: Step, key: Replay.ReplayKey, retain: int, before: int)
    requires IsI64(s.now) && (s.Verify? ==> IsI64(s.config.maxClockSkew))
    requires Held(cache, key, retain, before) && before <= s.now
    ensures Held(Take(w, cache, s).1, key, retain, s.now)
  {
    StepKeeps(w, cache, s, key);
  }

  lemma {:induction false} HeldSince(w: World, start: Replay.Cache, steps: seq<Step>, i: nat, k: nat, key: Replay.ReplayKey, retain: int)
    requires Clocked(steps) && i < k <= |steps| && Held(After(w, start, steps, i + 1), key, retain, steps[i].now)
    ensures Held(After(w, start, steps, k), key, retain, steps[k - 1].now)
  {
    if k > i + 1 {
      HeldSince(w, start, steps, i, k - 1, key, retain);
      StepHolds(w, After(w, start, steps, k - 1), steps[k - 1], key, retain, steps[k - 2].now);
    }
  }

  /** After step i accepted a nonce, the cache holds it until its retain-until has passed. */
  lemma NonceHeld(w: World, start: Replay.Cache, steps: seq<Step>, i: nat, k: nat)
    requires Clocked(steps) && i < k <= |steps| && Accepted(w, start, steps, i).Some?
    ensures var r := Accepted(w, start, steps, i).value;
            && Timestamp.Parse(r.expiresAt).Ok?
            && Held(After(w, start, steps, k), NonceOf(r),
                    Replay.RetainUntil(Timestamp.Parse(r.expiresAt).value, start.skew), steps[k - 1].now)
  {
    SkewIsFixed(w, start, steps, i);
    StepAccepts(w, After(w, start, steps, i), steps[i]);
    var r := Accepted(w, start, steps, i).value;
    HeldSince(w, start, steps, i, k, NonceOf(r), Replay.RetainUntil(Timestamp.Parse(r.expiresAt).value, start.skew));
  }

  /**
   * At most once: in every run, a nonce accepted a second time is accepted strictly after
   * the first acceptance's expiry plus the cache's skew.
   */
  lemma SecondAcceptanceIsLate(w: World, start: Replay.Cache, steps: seq<Step>, i: nat, j: nat)
    requires Clocked(steps) && i < j < |steps|
    requires Accepted(w, start, steps, i).Some? && Accepted(w, start, steps, j).Some?
    requires NonceOf(Accepted(w, start, steps, i).value) == NonceOf(Accepted(w, start, steps, j).value)
    ensures Timestamp.Parse(Accepted(w, start, steps, i).value.expiresAt).Ok?
    ensures Timestamp.Parse(Accepted(w, start, steps, i).value.expiresAt).value + start.skew < steps[j].now
  {
    NonceHeld(w, start, steps, i, j);
    StepAccepts(w, After(w, start, steps, j), steps[j]);
    assert steps[j - 1].now <= steps[j].now;
    Replay.RetainIsLate(Timestamp.Parse(Accepted(w, start, steps, i).value.expiresAt).value, start.skew, steps[j].now);
  }

  /** The expiry a text states, read as every verifier reads it. */
  function ExpiryOf(w: World, raw: string): Option<int> {
    match w.decode(raw)
    case None => None
    case Some(value) =>
      match LocateEnvelope(value, Signing.Request)
      case Err(_) => None
      case Ok(envelope) =>
        match Timestamp.Parse(TextOf(envelope, "expires_at"))
        case Err(_) => None
        case Ok(expires) => Some(expires)
  }

  /** The last i64 instant at which a verifier with this skew still takes a request. */
  function LastTaken(expires: int, skew: int): int {
    if expires + skew < I64_MAX then expires + skew else I64_MAX
  }

  /** The cache lets the request go while a verifier still takes it. */
  predicate Outlives(expires: int, cacheSkew: int, verifierSkew: int) {
    Replay.RetainUntil(expires, cacheSkew) < LastTaken(expires, verifierSkew)
  }

  /** The same text states the same nonce and expiry to every verifier. */
  lemma SameTextSameRecord(w: World, c: Replay.Cache, d: Replay.Cache, s: Step, t: Step)
    requires IsI64(s.now) && (s.Verify? ==> IsI64(s.config.maxClockSkew))
    requires IsI64(t.now) && (t.Verify? ==> IsI64(t.config.maxClockSkew))
    requires Take(w, c, s).0.Some? && Take(w, d, t).0.Some? && s.raw == t.raw
    ensures var (a, b) := (Take(w, c, s).0.value, Take(w, d, t).0.value);
            && NonceOf(a) == NonceOf(b) && a.expiresAt == b.expiresAt
            && Timestamp.Parse(b.expiresAt).Ok? && ExpiryOf(w, t.raw) == Some(Timestamp.Parse(b.expiresAt).value)
            && t.now <= Timestamp.Parse(b.expiresAt).value + t.config.maxClockSkew
  {
    CallRecords(w, s.verifier, s.raw, s.resolver, c, s.config, s.now);
    CallRecords(w, t.verifier, t.raw, t.resolver, d, t.config, t.now);
  }

  /** Two steps of a clocked run verify one text and accept it both times, the second with at most this skew. */
  predicate AcceptedTwice(w: World, start: Replay.Cache, steps: seq<Step>, i: nat, j: nat, raw: string, skew: int) {
    && Clocked(steps) && i < j < |steps| && steps[i].Verify? && steps[j].Verify?
    && steps[i].raw == raw && steps[j].raw == raw && steps[j].config.maxClockSkew <= skew
    && Accepted(w, start, steps, i).Some? && Accepted(w, start, steps, j).Some?
  }

  /**
   * No text is accepted twice in any run, whichever profiles, policies, resolvers and audiences
   * its verifiers use, unless the cache lets the text go while a verifier still takes it.
   */
  lemma NeverTwice(w: World, start: Replay.Cache, steps: seq<Step>, i: nat, j: nat, raw: string, skew: int)
    requires AcceptedTwice(w, start, steps, i, j, raw, skew)
    ensures ExpiryOf(w, raw).Some? && Outlives(ExpiryOf(w, raw).value, start.skew, skew)
  {
    SameTextSameRecord(w, After(w, start, steps, i), After(w, start, steps, j), steps[i], steps[j]);
    NonceHeld(w, start, steps, i, j);
    StepAccepts(w, After(w, start, steps, j), steps[j]);
    assert steps[j - 1].now <= steps[j].now;
  }

  /** A cache that retains at least the verifiers' skew lets nothing go too early. */
  lemma EnoughSkew(expires: int, cacheSkew: int, verifierSkew: int)
    requires verifierSkew <= cacheSkew
    ensures !Outlives(expires, cacheSkew, verifierSkew)
  {
  }

  /** So no text is accepted twice in a run whose verifiers tolerate no more skew than the cache retains. */
  lemma RetainedSkewSuffices(w: World, start: Replay.Cache, steps: seq<Step>, i: nat, j: nat, raw: string, skew: int)
    requires skew <= start.skew
    ensures !AcceptedTwice(w, start, steps, i, j, raw, skew)
  {
    if AcceptedTwice(w, start, steps, i, j, raw, skew) {
      NeverTwice(w, start, steps, i, j, raw, skew);
      EnoughSkew(ExpiryOf(w, raw).value, start.skew, skew);
      assert false;
    }
  }

  /** Where the retain-until does not saturate, it must retain at least that much. */
  lemma SkewNeeded(expires: int, cacheSkew: int, verifierSkew: int)
    requires I64_MIN <= expires + cacheSkew < I64_MAX
    ensures Outlives(expires, cacheSkew, verifierSkew) <==> cacheSkew < verifierSkew
  {
  }

  // ----- When a text is accepted again -----

  lemma GenuineLater(w: World, p: Profile, raw: string, value: Value, resolver: Resolver, config: Config, now: int, later: int)
    requires Genuine(w, p, raw, value, resolver, config, now) && now <= later
    requires later <= Timestamp.Parse(Claims(p, value).value.0.expiresAt).value + config.maxClockSkew
    ensures Genuine(w, p, raw, value, resolver, config, later)
  {
  }

  /** Accepted, let go and accepted again. */
  function TwiceRun(p: Profile, raw: string, resolver: Resolver, config: Config, now: int, later: int): seq<Step> {
    [Verify(Only(p), raw, resolver, config, now), Prune(later), Verify(Only(p), raw, resolver, config, later)]
  }

  lemma TwiceRunClocked(p: Profile, raw: string, resolver: Resolver, config: Config, now: int, later: int)
    requires IsI64(now) && IsI64(later) && IsI64(config.maxClockSkew) && now <= later
    ensures Clocked(TwiceRun(p, raw, resolver, config, now, later))
  {
  }

  lemma TwiceRunAccepts(w: World, p: Profile, raw: string, value: Value, resolver: Resolver, cache: Replay.Cache,
                        config: Config, now: int, later: int)
    requires IsI64(now) && IsI64(later) && IsI64(config.maxClockSkew) && now <= later
    requires w.decode(raw) == Some(value) && Genuine(w, p, raw, value, resolver, config, now)
    requires ClaimsKey(p, value) !in cache.seen
    requires var expires := Timestamp.Parse(Claims(p, value).value.0.expiresAt).value;
             Replay.RetainUntil(expires, cache.skew) < later <= expires + config.maxClockSkew
    ensures var steps := TwiceRun(p, raw, resolver, config, now, later);
            Accepted(w, cache, steps, 0).Some? && Accepted(w, cache, steps, 2).Some?
  {
    var steps := TwiceRun(p, raw, resolver, config, now, later);
    AcceptedExactly(w, p, raw, resolver, cache, config, now);
    var c1 := Recorded(cache, Claims(p, value).value.0);
    assert After(w, cache, steps, 1) == c1 by { assert After(w, cache, steps, 0) == cache; }
    var c2 := Replay.Pruned(c1, later);
    assert After(w, cache, steps, 2) == c2;
    assert ClaimsKey(p, value) !in c2.seen;
    GenuineLater(w, p, raw, value, resolver, config, now, later);
    AcceptedExactly(w, p, raw, resolver, c2, config, later);
  }

  /** A genuine request is accepted again at any instant past its retain-until and inside its window. */
  lemma AcceptedAgain(w: World, p: Profile, raw: string, value: Value, resolver: Resolver, cache: Replay.Cache,
                      config: Config, now: int, later: int)
    requires IsI64(now) && IsI64(later) && IsI64(config.maxClockSkew) && now <= later
    requires w.decode(raw) == Some(value) && Genuine(w, p, raw, value, resolver, config, now)
    requires ClaimsKey(p, value) !in cache.seen
    requires var expires := Timestamp.Parse(Claims(p, value).value.0.expiresAt).value;
             Replay.RetainUntil(expires, cache.skew) < later <= expires + config.maxClockSkew
    ensures AcceptedTwice(w, cache, TwiceRun(p, raw, resolver, config, now, later), 0, 2, raw, config.maxClockSkew)
  {
    TwiceRunClocked(p, raw, resolver, config, now, later);
    TwiceRunAccepts(w, p, raw, value, resolver, cache, config, now, later);
  }

  lemma GenuineExpiry(w: World, p: Profile, raw: string, value: Value, resolver: Resolver, config: Config, now: int)
    requires w.decode(raw) == Some(value) && Genuine(w, p, raw, value, resolver, config, now)
    ensures var expires := Timestamp.Parse(Claims(p, value).value.0.expiresAt);
            expires.Ok? && ExpiryOf(w, raw) == Some(expires.value) && now <= expires.value + config.maxClockSkew
  {
    Binding.ClaimsCommon(p, value);
  }

  /** Some run accepts the text twice, the second time by a verifier with at most this skew. */
  ghost predicate Repeatable(w: World, start: Replay.Cache, raw: string, skew: int) {
    exists steps, i, j :: AcceptedTwice(w, start, steps, i, j, raw, skew)
  }

  lemma RepeatableOnlyIf(w: World, start: Replay.Cache, raw: string, skew: int)
    requires Repeatable(w, start, raw, skew)
    ensures ExpiryOf(w, raw).Some? && Outlives(ExpiryOf(w, raw).value, start.skew, skew)
  {
    var steps, i, j :| AcceptedTwice(w, start, steps, i, j, raw, skew);
    NeverTwice(w, start, steps, i, j, raw, skew);
  }

  lemma RepeatableIf(w: World, p: Profile, raw: string, value: Value, resolver: Resolver, cache: Replay.Cache,
                     config: Config, now: int, expires: int)
    requires IsI64(now) && IsI64(config.maxClockSkew)
    requires w.decode(raw) == Some(value) && Genuine(w, p, raw, value, resolver, config, now)
    requires ClaimsKey(p, value) !in cache.seen && Timestamp.Parse(Claims(p, value).value.0.expiresAt) == Ok(expires)
    requires now <= expires + config.maxClockSkew && Outlives(expires, cache.skew, config.maxClockSkew)
    ensures Repeatable(w, cache, raw, config.maxClockSkew)
  {
    var later := LastTaken(expires, config.maxClockSkew);
    AcceptedAgain(w, p, raw, value, resolver, cache, config, now, later);
  }

  /**
   * Replay, exactly: a genuine and unseen text is accepted twice in some run, by verifiers with
   * at most the skew under which it is genuine, if and only if the cache's saturated retain-until
   * falls before the last instant at which such a verifier takes it.
   */
  lemma TwiceExactly(w: World, p: Profile, raw: string, value: Value, resolver: Resolver, cache: Replay.Cache,
                     config: Config, now: int)
    requires IsI64(now) && IsI64(config.maxClockSkew)
    requires w.decode(raw) == Some(value) && Genuine(w, p, raw, value, resolver, config, now)
    requires ClaimsKey(p, value) !in cache.seen
    ensures ExpiryOf(w, raw).Some?
    ensures Repeatable(w, cache, raw, config.maxClockSkew) <==>
            Outlives(ExpiryOf(w, raw).value, cache.skew, config.maxClockSkew)
  {
    GenuineExpiry(w, p, raw, value, resolver, config, now);
    if Outlives(ExpiryOf(w, raw).value, cache.skew, config.maxClockSkew) {
      RepeatableIf(w, p, raw, value, resolver, cache, config, now, ExpiryOf(w, raw).value);
    }
    if Repeatable(w, cache, raw, config.maxClockSkew) {
      RepeatableOnlyIf(w, cache, raw, config.maxClockSkew);
    }
  }
}
