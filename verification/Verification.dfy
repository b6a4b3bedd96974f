/** What acceptance by the request verifiers means, for every message, resolver, cache and instant. */
module Verification {
  import opened Outcome
  import opened Message
  import opened Envelope
  import opened Pipeline
  import opened Extraction
  import Canonical
  import Replay
  import Signing
  import Timestamp

  /** The text decodes to a single request with an id, and is in the canonical domain. */
  predicate IsRequestText(w: World, raw: string, value: Value) {
    && w.decode(raw) == Some(value)
    && !value.Array?
    && Get(value, "id").Some? && !Get(value, "id").value.Null?
    && Canonical.Canonicalize(raw).Ok?
  }

  /** Timestamps parse and `now` is within their window, in unbounded arithmetic. */
  predicate Timely(issuedAt: string, expiresAt: string, skew: int, now: int) {
    && Timestamp.Parse(issuedAt).Ok?
    && Timestamp.Parse(expiresAt).Ok?
    && Timestamp.InWindow(Timestamp.Parse(issuedAt).value, Timestamp.Parse(expiresAt).value, now, skew)
  }

  /** The resolved key verifies the envelope's signature over the message's preimage. */
  predicate SignedBy(w: World, value: Value, env: Common, resolver: Resolver) {
    && env.signature.alg == SIG_ALG_ED25519
    && env.signature.value.Some?
    && resolver(env.signer, env.signature.keyId).Resolved?
    && Signing.SigningPreimage(value, Signing.Request).Ok?
    && w.verifies(resolver(env.signer, env.signature.keyId).key,
                  Signing.SigningPreimage(value, Signing.Request).value, env.signature.value.value)
  }

  /** The profile's own reading of the envelope. */
  function Claims(p: Profile, value: Value): Result<(Common, Authorization, Option<string>)> {
    match p
    case Draft01 =>
      var env :- ExtractRequest(value);
      Ok((env.common, Draft01Hash(env.authorizationHash), None))
    case Draft02 =>
      var env :- ExtractDraft02Request(value);
      Ok((env.common, Draft02Binding(env.binding), Some(env.canonicalizationId)))
  }

  /** A draft-01 authorization is a SHA-256 hash text. */
  predicate IsStated(authorization: Authorization) {
    authorization.Draft01Hash? ==> "sha256:" <= authorization.hash
  }

  /** Everything an accepted request satisfies before the replay check. */
  predicate Genuine(w: World, p: Profile, raw: string, value: Value, resolver: Resolver, config: Config, now: int) {
    && IsRequestText(w, raw, value)
    && Claims(p, value).Ok?
    && IsStated(Claims(p, value).value.1)
    && var env := Claims(p, value).value.0;
    && env.onBehalfOf != ""
    && env.audience == config.expectedAudience
    && Timely(env.issuedAt, env.expiresAt, config.maxClockSkew, now)
    && SignedBy(w, value, env, resolver)
  }

  lemma AdmissibleExactly(w: World, raw: string)
    ensures Admissible(w, raw).Ok? <==> w.decode(raw).Some? && IsRequestText(w, raw, w.decode(raw).value)
    ensures Admissible(w, raw).Ok? ==> Admissible(w, raw).value == w.decode(raw).value
  {
  }

  /** The freshness check is the window in unbounded arithmetic. */
  lemma TimelyExactly(env: Common, skew: int, now: int)
    requires IsI64(now) && IsI64(skew)
    ensures Timestamp.CheckFreshness(env.issuedAt, env.expiresAt, now, skew) ==
            if Timely(env.issuedAt, env.expiresAt, skew, now) then Ok(()) else Err(ExpiredRequest)
  {
    Timestamp.FreshnessWindow(env.issuedAt, env.expiresAt, now, skew);
  }

  /** The verdict by conditions: the first of audience, window, key and signature that fails decides. */
  function Declared(aimed: bool, timely: bool, answer: Resolution, signed: bool): Result<()> {
    if !aimed then Err(InvalidAudience)
    else if !timely then Err(ExpiredRequest)
    else if answer == Refused(Unavailable) then Err(TrustResolverUnavailable)
    else if answer.Refused? then Err(ActorBindingFailed)
    else if !signed then Err(InvalidSignature)
    else Ok(())
  }

  /** One verdict for each condition, in order. */
  lemma StepTable(w: World, aimed: bool, timely: bool, answer: Resolution, preimage: string, signature: string)
    ensures InOrder(w, aimed, if timely then Ok(()) else Err(ExpiredRequest),
                    if answer.Resolved? then Ok(answer.key) else Err(ResolverErrorToMcps(answer.error)),
                    Ok(preimage), Some(signature)) ==
            Declared(aimed, timely, answer, answer.Resolved? && w.verifies(answer.key, preimage, signature))
  {
  }

  function DeclaredFor(w: World, value: Value, env: Common, resolver: Resolver, config: Config, now: int): Result<()> {
    Declared(env.audience == config.expectedAudience, Timely(env.issuedAt, env.expiresAt, config.maxClockSkew, now),
             resolver(env.signer, env.signature.keyId), SignedBy(w, value, env, resolver))
  }

  lemma StepVerdicts(w: World, value: Value, env: Common, resolver: Resolver, config: Config, now: int)
    requires IsI64(now) && IsI64(config.maxClockSkew)
    requires env.signature.alg == SIG_ALG_ED25519 && env.signature.value.Some?
    requires Signing.SigningPreimage(value, Signing.Request).Ok?
    ensures Authenticate(w, value, env, resolver, config, now) == DeclaredFor(w, value, env, resolver, config, now)
  {
    TimelyExactly(env, config.maxClockSkew, now);
    StepTable(w, env.audience == config.expectedAudience, Timely(env.issuedAt, env.expiresAt, config.maxClockSkew, now),
              resolver(env.signer, env.signature.keyId), Signing.SigningPreimage(value, Signing.Request).value,
              env.signature.value.value);
  }

  lemma InOrderExactly(w: World, aimed: bool, timely: Result<()>, key: Result<Key>, preimage: Result<string>, signature: Option<string>)
    ensures InOrder(w, aimed, timely, key, preimage, signature).Ok? <==>
            && aimed && timely.Ok? && key.Ok? && preimage.Ok? && signature.Some?
            && w.verifies(key.value, preimage.value, signature.value)
  {
  }

  lemma AuthenticateExactly(w: World, value: Value, env: Common, resolver: Resolver, config: Config, now: int)
    requires IsI64(now) && IsI64(config.maxClockSkew)
    ensures CheckSignatureBlock(env.signature).Ok? && Authenticate(w, value, env, resolver, config, now).Ok? <==>
            env.audience == config.expectedAudience && Timely(env.issuedAt, env.expiresAt, config.maxClockSkew, now) && SignedBy(w, value, env, resolver)
  {
    TimelyExactly(env, config.maxClockSkew, now);
    InOrderExactly(w, env.audience == config.expectedAudience,
                   Timestamp.CheckFreshness(env.issuedAt, env.expiresAt, now, config.maxClockSkew),
                   Resolve(resolver, env.signer, env.signature.keyId),
                   Signing.SigningPreimage(value, Signing.Request), env.signature.value);
  }

  lemma AuthenticDraft01(w: World, raw: string, resolver: Resolver, config: Config, now: int)
    requires IsI64(now) && IsI64(config.maxClockSkew)
    ensures var r := AuthenticateDraft01(w, raw, resolver, config, now);
            && (r.Ok? <==> w.decode(raw).Some? && Genuine(w, Draft01, raw, w.decode(raw).value, resolver, config, now))
            && (r.Ok? ==>
                && w.decode(raw) == Some(r.value.value)
                && Claims(Draft01, r.value.value) == Ok((r.value.env, r.value.authorization, r.value.canonicalizationId)))
  {
    AdmissibleExactly(w, raw);
    if w.decode(raw).Some? && ExtractRequest(w.decode(raw).value).Ok? {
      var value := w.decode(raw).value;
      AuthenticateExactly(w, value, ExtractRequest(value).value.common, resolver, config, now);
    }
  }

  lemma AuthenticDraft02(w: World, raw: string, resolver: Resolver, config: Config, now: int)
    requires IsI64(now) && IsI64(config.maxClockSkew)
    ensures var r := AuthenticateDraft02(w, raw, resolver, config, now);
            && (r.Ok? <==> w.decode(raw).Some? && Genuine(w, Draft02, raw, w.decode(raw).value, resolver, config, now))
            && (r.Ok? ==>
                && w.decode(raw) == Some(r.value.value)
                && Claims(Draft02, r.value.value) == Ok((r.value.env, r.value.authorization, r.value.canonicalizationId)))
  {
    AdmissibleExactly(w, raw);
    if w.decode(raw).Some? && ExtractDraft02Request(w.decode(raw).value).Ok? {
      var value := w.decode(raw).value;
      AuthenticateExactly(w, value, ExtractDraft02Request(value).value.common, resolver, config, now);
    }
  }

  /** Steps 1 to 11 succeed exactly on genuine requests. */
  lemma AuthenticUnderExactly(w: World, p: Profile, raw: string, resolver: Resolver, config: Config, now: int)
    requires IsI64(now) && IsI64(config.maxClockSkew)
    ensures AuthenticateUnder(w, p, raw, resolver, config, now).Ok? <==>
            w.decode(raw).Some? && Genuine(w, p, raw, w.decode(raw).value, resolver, config, now)
    ensures AuthenticateUnder(w, p, raw, resolver, config, now).Ok? ==>
            var a := AuthenticateUnder(w, p, raw, resolver, config, now).value;
            w.decode(raw) == Some(a.value) && Claims(p, a.value) == Ok((a.env, a.authorization, a.canonicalizationId))
  {
    match p
    case Draft01 => AuthenticDraft01(w, raw, resolver, config, now);
    case Draft02 => AuthenticDraft02(w, raw, resolver, config, now);
  }

  /** The order of the structural rejects: batch, then notification, then anything outside the canonical domain. */
  lemma StructuralRejects(w: World, raw: string)
    ensures w.decode(raw).None? ==> Admissible(w, raw) == Err(CanonicalizationFailed)
    ensures Admissible(w, raw) == Err(BatchForbidden) <==> w.decode(raw).Some? && w.decode(raw).value.Array?
    ensures Admissible(w, raw) == Err(NotificationForbidden) <==>
            && w.decode(raw).Some? && !w.decode(raw).value.Array?
            && var id := Get(w.decode(raw).value, "id"); (id.None? || id.value.Null?)
  {
  }

  /** What the authorization of a profile reads as, in the members of the envelope. */
  predicate AuthorizationReads(p: Profile, raw: Value, authorization: Authorization, id: Option<string>) {
    match p
    case Draft01 => authorization.Draft01Hash? && TextIs(raw, "authorization_hash", authorization.hash) && id.None?
    case Draft02 =>
      && authorization.Draft02Binding? && Get(raw, "authorization_binding").Some?
      && BindingReads(Get(raw, "authorization_binding").value, authorization.binding)
      && id.Some? && TextIs(raw, "canonicalization_id", id.value)
  }

  lemma Draft01Reads(value: Value, raw: Value)
    requires RequestEnvelopeIs(value, raw) && IsDraft01Request(raw)
    ensures ExtractRequest(value).Ok?
    ensures var env := ExtractRequest(value).value;
            CommonReads(raw, env.common) && TextIs(raw, "authorization_hash", env.authorizationHash)
  {
    Located(value, raw);
    RequestExactly(value, raw);
    ExtractedRequest(value);
    var texts := REQUEST_TEXTS;
    CommonRead(raw, texts, false);
    TypedMember(raw, texts, false, "authorization_hash");
  }

  lemma Draft02Members(raw: Value)
    requires IsDraft02Request(raw)
    ensures CommonReads(raw, ReadCommon(raw)) && TextIs(raw, "canonicalization_id", TextOf(raw, "canonicalization_id"))
  {
    var texts := DRAFT02_REQUEST_TEXTS;
    CommonRead(raw, texts, true);
    TypedMember(raw, texts, true, "canonicalization_id");
  }

  lemma Draft02Reads(value: Value, raw: Value)
    requires RequestEnvelopeIs(value, raw) && IsDraft02Request(raw)
    ensures ExtractDraft02Request(value).Ok?
    ensures var env := ExtractDraft02Request(value).value;
            && CommonReads(raw, env.common) && TextIs(raw, "canonicalization_id", env.canonicalizationId)
            && BindingReads(Get(raw, "authorization_binding").value, env.binding)
  {
    Located(value, raw);
    Draft02RequestExactly(value, raw);
    ExtractedDraft02Request(value);
    Draft02Members(raw);
    BindingRead(Get(raw, "authorization_binding").value);
  }

  predicate IsRequestOf(p: Profile, raw: Value) {
    match p
    case Draft01 => IsDraft01Request(raw)
    case Draft02 => IsDraft02Request(raw)
  }

  /** A profile claims exactly the messages whose envelope is one of its own, and reads its members by their names. */
  lemma ClaimsExactly(p: Profile, value: Value, raw: Value)
    requires RequestEnvelopeIs(value, raw)
    ensures Claims(p, value).Ok? <==> IsRequestOf(p, raw)
    ensures Claims(p, value).Ok? ==>
            var (env, authorization, id) := Claims(p, value).value;
            CommonReads(raw, env) && AuthorizationReads(p, raw, authorization, id)
  {
    match p
    case Draft01 =>
      RequestExactly(value, raw);
      if IsDraft01Request(raw) {
        Draft01Reads(value, raw);
      }
    case Draft02 =>
      Draft02RequestExactly(value, raw);
      if IsDraft02Request(raw) {
        Draft02Reads(value, raw);
      }
  }

  /** Without an envelope in its place a message is claimed by no profile. */
  lemma UnclaimedWithoutEnvelope(p: Profile, value: Value)
    requires GetPath(value, ["params", "_meta", "se.syncom/mcps.request"]).None?
    ensures Claims(p, value) == Err(MissingEnvelope)
  {
    NotLocated(value);
  }

  /** Before audience and window: the hash, the principal and the signature block, in that order. */
  lemma EnvelopeVerdicts(w: World, p: Profile, raw: string, resolver: Resolver, config: Config, now: int)
    requires w.decode(raw).Some? && IsRequestText(w, raw, w.decode(raw).value)
    ensures var r := AuthenticateUnder(w, p, raw, resolver, config, now);
            var claims := Claims(p, w.decode(raw).value);
            if claims.Err? then r == Err(claims.error)
            else if !IsStated(claims.value.1) then r == Err(AuthorizationHashMissing)
            else if claims.value.0.onBehalfOf == "" then r == Err(OnBehalfOfInvalidFormat)
            else if claims.value.0.signature.alg != "Ed25519" || claims.value.0.signature.value.None? then r == Err(InvalidSignature)
            else true
  {
    AdmissibleExactly(w, raw);
  }

  /** The envelope passed every check that concerns it alone. */
  predicate WellFormed(w: World, p: Profile, raw: string) {
    && w.decode(raw).Some?
    && IsRequestText(w, raw, w.decode(raw).value)
    && Claims(p, w.decode(raw).value).Ok?
    && IsStated(Claims(p, w.decode(raw).value).value.1)
    && var env := Claims(p, w.decode(raw).value).value.0;
    && env.onBehalfOf != ""
    && env.signature.alg == SIG_ALG_ED25519 && env.signature.value.Some?
    && Signing.SigningPreimage(w.decode(raw).value, Signing.Request).Ok?
  }

  lemma WellFormedReaches(w: World, p: Profile, raw: string, resolver: Resolver, config: Config, now: int)
    requires WellFormed(w, p, raw)
    ensures var value := w.decode(raw).value;
            var r := AuthenticateUnder(w, p, raw, resolver, config, now);
            var s := Authenticate(w, value, Claims(p, value).value.0, resolver, config, now);
            (r.Ok? <==> s.Ok?) && (r.Err? ==> s == Err(r.error))
  {
    AdmissibleExactly(w, raw);
  }

  /** A well-formed request is judged by the first condition it fails, in that order, before any replay check. */
  lemma FirstFailureDecides(w: World, p: Profile, raw: string, resolver: Resolver, config: Config, now: int)
    requires IsI64(now) && IsI64(config.maxClockSkew) && WellFormed(w, p, raw)
    ensures var value := w.decode(raw).value;
            var r := AuthenticateUnder(w, p, raw, resolver, config, now);
            var d := DeclaredFor(w, value, Claims(p, value).value.0, resolver, config, now);
            if d.Ok? then r.Ok? else r == Err(d.error)
  {
    WellFormedReaches(w, p, raw, resolver, config, now);
    StepVerdicts(w, w.decode(raw).value, Claims(p, w.decode(raw).value).value.0, resolver, config, now);
  }

  function ClaimsKey(p: Profile, value: Value): Replay.ReplayKey
    requires Claims(p, value).Ok?
  {
    KeyOf(Claims(p, value).value.0)
  }

  /** What the cache records for a request that claims these fields. */
  function Recorded(cache: Replay.Cache, env: Common): Replay.Cache
    requires Timestamp.Parse(env.expiresAt).Ok?
  {
    cache.(seen := cache.seen[KeyOf(env) := Replay.RetainUntil(Timestamp.Parse(env.expiresAt).value, cache.skew)])
  }

  /** Step 12 on a genuine request: refused exactly when its key is cached; otherwise recorded and accepted. */
  lemma AdmitExactly(w: World, a: Authenticated, cache: Replay.Cache)
    requires Timestamp.Parse(a.env.expiresAt).Ok? && Signing.SigningPreimage(a.value, Signing.Request).Ok?
    ensures Admit(w, a, cache) ==
            if KeyOf(a.env) in cache.seen then (Err(ReplayDetected), cache)
            else (Conclude(w, a), Recorded(cache, a.env))
    ensures Conclude(w, a).Ok?
  {
  }

  /**
   * Acceptance, exactly: a request is accepted if and only if it is genuine and its
   * (signer, audience, nonce) is not cached. A rejected request leaves the cache as it
   * was; an accepted one adds its own key and changes no other.
   */
  lemma AcceptedExactly(w: World, p: Profile, raw: string, resolver: Resolver, cache: Replay.Cache, config: Config, now: int)
    requires IsI64(now) && IsI64(config.maxClockSkew)
    ensures var (r, after) := VerifyUnder(w, p, raw, resolver, cache, config, now);
            && (r.Ok? <==> && w.decode(raw).Some?
                           && Genuine(w, p, raw, w.decode(raw).value, resolver, config, now)
                           && ClaimsKey(p, w.decode(raw).value) !in cache.seen)
            && (r.Err? ==> after == cache)
            && (r.Ok? ==> after == Recorded(cache, Claims(p, w.decode(raw).value).value.0))
  {
    AuthenticUnderExactly(w, p, raw, resolver, config, now);
    var a := AuthenticateUnder(w, p, raw, resolver, config, now);
    if a.Ok? {
      AdmitExactly(w, a.value, cache);
    }
  }

  /** The accepted record is the envelope's own claims, with the hash of its preimage. */
  lemma AcceptedRecord(w: World, p: Profile, raw: string, resolver: Resolver, cache: Replay.Cache, config: Config, now: int)
    requires IsI64(now) && IsI64(config.maxClockSkew)
    requires VerifyUnder(w, p, raw, resolver, cache, config, now).0.Ok?
    ensures w.decode(raw).Some? && Genuine(w, p, raw, w.decode(raw).value, resolver, config, now)
    ensures var r := VerifyUnder(w, p, raw, resolver, cache, config, now).0.value;
            var value := w.decode(raw).value;
            var (env, authorization, id) := Claims(p, value).value;
            r == VerifiedRequest(env.signer, env.signature.keyId, env.onBehalfOf, env.audience, authorization,
                                 w.hash(Signing.SigningPreimage(value, Signing.Request).value),
                                 env.nonce, env.issuedAt, env.expiresAt, id)
  {
    AuthenticUnderExactly(w, p, raw, resolver, config, now);
    AdmitExactly(w, AuthenticateUnder(w, p, raw, resolver, config, now).value, cache);
  }

  // ----- The dual verifier -----

  predicate Offers(policy: Policy, p: Profile) {
    p == Draft02 || policy == Draft01AndDraft02
  }

  lemma ClaimsVersion(p: Profile, value: Value)
    requires Claims(p, value).Ok?
    ensures ReadVersion(value) == Ok(if p == Draft01 then VERSION_DRAFT_01 else VERSION_DRAFT_02)
  {
    ExtractedVersions(value);
  }

  /** No message is claimed by both profiles. */
  lemma ProfilesExclude(value: Value)
    ensures !(Claims(Draft01, value).Ok? && Claims(Draft02, value).Ok?)
  {
    if Claims(Draft01, value).Ok? && Claims(Draft02, value).Ok? {
      ClaimsVersion(Draft01, value);
      ClaimsVersion(Draft02, value);
    }
  }

  /** The dual verifier's verdict before any profile is asked, by the version member. */
  lemma SelectionVerdicts(w: World, raw: string, policy: Policy, envelope: Value)
    requires w.decode(raw).Some? && IsRequestText(w, raw, w.decode(raw).value)
    requires RequestEnvelopeIs(w.decode(raw).value, envelope)
    ensures SelectProfile(w, raw, policy) ==
            if TextIs(envelope, "version", "draft-02") then Ok(Draft02)
            else if TextIs(envelope, "version", "draft-01") then
              if policy == Draft02Only then Err(DowngradeForbidden) else Ok(Draft01)
            else Err(UnsupportedVersion)
  {
    Located(w.decode(raw).value, envelope);
    TypedText(envelope, "version", "draft-01");
    TypedText(envelope, "version", "draft-02");
  }

  lemma ClaimedSelects(w: World, p: Profile, raw: string, policy: Policy)
    requires w.decode(raw).Some? && IsRequestText(w, raw, w.decode(raw).value) && Claims(p, w.decode(raw).value).Ok?
    ensures SelectProfile(w, raw, policy) == if Offers(policy, p) then Ok(p) else Err(DowngradeForbidden)
  {
    ClaimsVersion(p, w.decode(raw).value);
  }

  /**
   * Dispatch refines the profile verifiers: it accepts a message if and only if some
   * profile the policy offers accepts it, and then with that profile's result and cache;
   * what only a withheld profile would accept is refused as a downgrade.
   */
  lemma DispatchExactly(w: World, raw: string, resolver: Resolver, cache: Replay.Cache, config: Config, now: int, policy: Policy)
    requires IsI64(now) && IsI64(config.maxClockSkew)
    ensures var d := VerifyDispatch(w, raw, resolver, cache, config, now, policy);
            var v1 := VerifyUnder(w, Draft01, raw, resolver, cache, config, now);
            var v2 := VerifyUnder(w, Draft02, raw, resolver, cache, config, now);
            && !(v1.0.Ok? && v2.0.Ok?)
            && (v2.0.Ok? ==> d == v2)
            && (v1.0.Ok? ==> d == if policy == Draft01AndDraft02 then v1 else (Err(DowngradeForbidden), cache))
            && (v1.0.Err? && v2.0.Err? ==> d.0.Err? && d.1 == cache)
  {
    var v1 := VerifyUnder(w, Draft01, raw, resolver, cache, config, now);
    var v2 := VerifyUnder(w, Draft02, raw, resolver, cache, config, now);
    AcceptedExactly(w, Draft01, raw, resolver, cache, config, now);
    AcceptedExactly(w, Draft02, raw, resolver, cache, config, now);
    if w.decode(raw).Some? {
      ProfilesExclude(w.decode(raw).value);
    }
    if v1.0.Ok? {
      ClaimedSelects(w, Draft01, raw, policy);
    } else if v2.0.Ok? {
      ClaimedSelects(w, Draft02, raw, policy);
    }
  }
}
