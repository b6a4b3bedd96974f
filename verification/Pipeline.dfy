/**
 * Request and response verification, in the order the verifier takes its steps.
 *
 * What lies outside the protocol core arrives as functions: text decoding, the
 * hash and the signature check (`World`), and the trust resolver.
 */
module Pipeline {
  import opened Outcome
  import opened Message
  import opened Envelope
  import Canonical
  import Replay
  import Serialized
  import Signing
  import Timestamp

  datatype Key = Key(bytes: seq<int>)

  datatype World = World(
    decode: string -> Option<Value>,
    verifies: (Key, string, string) -> bool,
    hash: string -> string,
    otherText: Value -> string)   // the serializer's text of a value outside the canonical domain

  /** The serializer: compact text. */
  function Serialize(w: World, v: Value): string {
    if Serialized.Fine(v, 0) then Serialized.Compact(v) else w.otherText(v)
  }

  datatype ResolverError = NotFound | Revoked | MalformedKey | Unavailable

  datatype Resolution = Resolved(key: Key) | Refused(error: ResolverError)

  type Resolver = (string, string) -> Resolution

  function ResolverErrorToMcps(e: ResolverError): McpsError {
    match e
    case Unavailable => TrustResolverUnavailable
    case _ => ActorBindingFailed
  }

  function Resolve(resolver: Resolver, signer: string, keyId: string): Result<Key> {
    match resolver(signer, keyId)
    case Resolved(key) => Ok(key)
    case Refused(e) => Err(ResolverErrorToMcps(e))
  }

  datatype Config = Config(expectedAudience: string, maxClockSkew: int)

  datatype Authorization = Draft01Hash(hash: string) | Draft02Binding(binding: AuthorizationBinding)

  datatype VerifiedRequest = VerifiedRequest(
    signer: string, keyId: string, onBehalfOf: string, audience: string, authorization: Authorization,
    requestHash: string, nonce: string, issuedAt: string, expiresAt: string, canonicalizationId: Option<string>)

  datatype VerifiedResponse = VerifiedResponse(serverSigner: string, keyId: string, requestHash: string)

  const SHA256_PREFIX: string := "sha256:"

  // ----- The steps both request profiles share -----

  /** Steps 1 to 3: structural rejects, then the canonical domain of the raw text. */
  function Admissible(w: World, raw: string): Result<Value> {
    var value :- OkOr(w.decode(raw), CanonicalizationFailed);
    var _ :- RejectBatch(value);
    var _ :- RejectNotification(value);
    var _ :- Canonical.Canonicalize(raw);
    Ok(value)
  }

  function CheckAuthorizationHash(h: string): Result<()> {
    Need(h != "" && SHA256_PREFIX <= h, AuthorizationHashMissing)
  }

  function CheckOnBehalfOf(principal: string): Result<()> {
    Need(principal != "", OnBehalfOfInvalidFormat)
  }

  function CheckSignatureBlock(block: SignatureBlock): Result<()> {
    if block.alg != SIG_ALG_ED25519 then Err(InvalidSignature)
    else Need(block.value.Some?, InvalidSignature)
  }

  /** Steps 8 to 11 over what each of them looks at: the first that fails decides. */
  function InOrder(w: World, aimed: bool, timely: Result<()>, key: Result<Key>, preimage: Result<string>, signature: Option<string>)
    : Result<()>
  {
    var _ :- Need(aimed, InvalidAudience);
    var _ :- timely;
    var k :- key;
    var p :- preimage;
    var s :- OkOr(signature, InvalidSignature);
    Need(w.verifies(k, p, s), InvalidSignature)
  }

  /** Steps 8 to 11: audience, freshness, key resolution, signature. */
  function Authenticate(w: World, value: Value, env: Common, resolver: Resolver, config: Config, now: int): Result<()> {
    InOrder(w,
            env.audience == config.expectedAudience,
            Timestamp.CheckFreshness(env.issuedAt, env.expiresAt, now, config.maxClockSkew),
            Resolve(resolver, env.signer, env.signature.keyId),
            Signing.SigningPreimage(value, Signing.Request),
            env.signature.value)
  }

  /** What steps 1 to 11 establish about a request. */
  datatype Authenticated = Authenticated(
    value: Value, env: Common, authorization: Authorization, canonicalizationId: Option<string>)

  function AuthenticateDraft01(w: World, raw: string, resolver: Resolver, config: Config, now: int): Result<Authenticated> {
    var value :- Admissible(w, raw);
    var env :- ExtractRequest(value);
    var _ :- CheckAuthorizationHash(env.authorizationHash);
    var _ :- CheckOnBehalfOf(env.common.onBehalfOf);
    var _ :- CheckSignatureBlock(env.common.signature);
    var _ :- Authenticate(w, value, env.common, resolver, config, now);
    Ok(Authenticated(value, env.common, Draft01Hash(env.authorizationHash), None))
  }

  function AuthenticateDraft02(w: World, raw: string, resolver: Resolver, config: Config, now: int): Result<Authenticated> {
    var value :- Admissible(w, raw);
    var env :- ExtractDraft02Request(value);
    var _ :- CheckOnBehalfOf(env.common.onBehalfOf);
    var _ :- CheckSignatureBlock(env.common.signature);
    var _ :- Authenticate(w, value, env.common, resolver, config, now);
    Ok(Authenticated(value, env.common, Draft02Binding(env.binding), Some(env.canonicalizationId)))
  }

  function RequestHash(w: World, value: Value): Result<string> {
    var preimage :- Signing.SigningPreimage(value, Signing.Request);
    Ok(w.hash(preimage))
  }

  function Conclude(w: World, a: Authenticated): Result<VerifiedRequest> {
    var h :- RequestHash(w, a.value);
    Ok(VerifiedRequest(a.env.signer, a.env.signature.keyId, a.env.onBehalfOf, a.env.audience, a.authorization,
                       h, a.env.nonce, a.env.issuedAt, a.env.expiresAt, a.canonicalizationId))
  }

  function KeyOf(env: Common): Replay.ReplayKey {
    Replay.ReplayKey(env.signer, env.audience, env.nonce)
  }

  /** Step 12 and the conclusion, as they act on the replay cache. */
  function Admit(w: World, a: Authenticated, cache: Replay.Cache): (Result<VerifiedRequest>, Replay.Cache) {
    match Timestamp.Parse(a.env.expiresAt)
    case Err(e) => (Err(e), cache)
    case Ok(expires) =>
      var (decision, cache') := Replay.Insert(cache, KeyOf(a.env), expires);
      if decision == Replay.Replayed then (Err(ReplayDetected), cache')
      else (Conclude(w, a), cache')
  }

  // ----- The verifiers -----

  datatype Policy = Draft02Only | Draft01AndDraft02

  predicate Admits(policy: Policy, version: string) {
    version == VERSION_DRAFT_02 || (policy == Draft01AndDraft02 && version == VERSION_DRAFT_01)
  }

  datatype Profile = Draft01 | Draft02

  function AuthenticateUnder(w: World, p: Profile, raw: string, resolver: Resolver, config: Config, now: int): Result<Authenticated> {
    match p
    case Draft01 => AuthenticateDraft01(w, raw, resolver, config, now)
    case Draft02 => AuthenticateDraft02(w, raw, resolver, config, now)
  }

  /** `verify_request` and `verify_request_draft02`: the result and the cache afterwards. */
  function VerifyUnder(w: World, p: Profile, raw: string, resolver: Resolver, cache: Replay.Cache, config: Config, now: int)
    : (Result<VerifiedRequest>, Replay.Cache)
  {
    match AuthenticateUnder(w, p, raw, resolver, config, now)
    case Err(e) => (Err(e), cache)
    case Ok(a) => Admit(w, a, cache)
  }

  function ReadVersion(value: Value): Result<string> {
    var raw :- LocateEnvelope(value, Signing.Request);
    OkOr(GetString(raw, "version"), UnsupportedVersion)
  }

  /** The profile a message selects under a policy, or why it selects none. */
  function SelectProfile(w: World, raw: string, policy: Policy): Result<Profile> {
    var value :- OkOr(w.decode(raw), CanonicalizationFailed);
    var _ :- RejectBatch(value);
    var _ :- RejectNotification(value);
    var version :- ReadVersion(value);
    if version != VERSION_DRAFT_01 && version != VERSION_DRAFT_02 then Err(UnsupportedVersion)
    else if !Admits(policy, version) then Err(DowngradeForbidden)
    else if version == VERSION_DRAFT_01 then Ok(Draft01)
    else Ok(Draft02)
  }

  /** `verify_request_dispatch`. */
  function VerifyDispatch(w: World, raw: string, resolver: Resolver, cache: Replay.Cache, config: Config, now: int, policy: Policy)
    : (Result<VerifiedRequest>, Replay.Cache)
  {
    match SelectProfile(w, raw, policy)
    case Err(e) => (Err(e), cache)
    case Ok(p) => VerifyUnder(w, p, raw, resolver, cache, config, now)
  }

  // ----- The same against the cache object -----

  method VerifyRequest(w: World, p: Profile, raw: string, resolver: Resolver,
                       replay: Replay.InMemoryReplayCache, config: Config, now: int)
    returns (r: Result<VerifiedRequest>)
    modifies replay
    ensures (r, replay.State()) == VerifyUnder(w, p, raw, resolver, old(replay.State()), config, now)
  {
    var a :- AuthenticateUnder(w, p, raw, resolver, config, now);
    var expires :- Timestamp.Parse(a.env.expiresAt);
    var decision := replay.CheckAndInsert(a.env.signer, a.env.audience, a.env.nonce, expires);
    if decision == Replay.Replayed {
      return Err(ReplayDetected);
    }
    r := Conclude(w, a);
  }

  method VerifyRequestDispatch(w: World, raw: string, resolver: Resolver,
                               replay: Replay.InMemoryReplayCache, config: Config, now: int, policy: Policy)
    returns (r: Result<VerifiedRequest>)
    modifies replay
    ensures (r, replay.State()) == VerifyDispatch(w, raw, resolver, old(replay.State()), config, now, policy)
  {
    var p :- SelectProfile(w, raw, policy);
    r := VerifyRequest(w, p, raw, resolver, replay, config, now);
  }

  // ----- Responses -----

  function CheckResponseSignature(w: World, value: Value, env: ResponseEnvelope, resolver: Resolver): Result<()> {
    var _ :- Need(env.signature.alg == SIG_ALG_ED25519, ResponseSigInvalid);
    var key :- Resolve(resolver, env.serverSigner, env.signature.keyId);
    var preimage :- Signing.SigningPreimage(value, Signing.Response);
    var signature :- OkOr(env.signature.value, ResponseSigInvalid);
    Need(w.verifies(key, preimage, signature), ResponseSigInvalid)
  }

  function VerifyResponse(w: World, raw: string, resolver: Resolver, expectedHash: string): Result<VerifiedResponse> {
    var value :- Admissible(w, raw);
    var env :- ExtractResponse(value);
    var _ :- CheckResponseSignature(w, value, env, resolver);
    var _ :- Need(env.requestHash == expectedHash, ResponseHashMismatch);
    Ok(VerifiedResponse(env.serverSigner, env.signature.keyId, env.requestHash))
  }

  function VerifyResponseDraft02(w: World, raw: string, resolver: Resolver, expectedHash: string, expectedId: string)
    : Result<VerifiedResponse>
  {
    var value :- Admissible(w, raw);
    var env :- ExtractDraft02Response(value);
    var _ :- CheckResponseSignature(w, value, env.response, resolver);
    var _ :- Need(env.canonicalizationId == expectedId, CanonicalizationIdMismatch);
    var _ :- Need(env.response.requestHash == expectedHash, ResponseHashMismatch);
    Ok(VerifiedResponse(env.response.serverSigner, env.response.signature.keyId, env.response.requestHash))
  }
}
