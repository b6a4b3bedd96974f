/** When a verifier takes what the builder built. */
module RequestAcceptance {
  import opened Outcome
  import opened Message
  import opened Envelope
  import opened Pipeline
  import opened Request
  import opened RequestDomain
  import Canonical
  import Grammar
  import Recognizer
  import Replay
  import Signing
  import opened Verification

  // ----- Authorization bindings survive the wire -----

  predicate ProperBinding(b: AuthorizationBinding) {
    && b.digestAlg == DIGEST_ALG_SHA256 && b.digestValue != ""
    && (b.AuthzSystemReference? ==> b.systemId != "" && b.schemeId != "" && b.referenceValue != "")
  }

  lemma EncodedOpaque(alg: string, digest: string)
    ensures var v := EncodeBinding(OpaqueBytes(alg, digest));
            && GetString(v, "binding_type") == Some(BINDING_TYPE_OPAQUE_BYTES)
            && GetString(v, "digest_alg") == Some(alg)
            && GetString(v, "digest_value") == Some(digest)
            && (forall k | k in REFERENCE_ONLY :: Get(v, k).None?)
  {
    var es := EncodeBinding(OpaqueBytes(alg, digest)).entries;
    FindAt(es, 0);
    FindAt(es, 1);
    FindAt(es, 2);
    forall k | k in REFERENCE_ONLY ensures Find(es, k).None? {
      assert es[0].key != k && es[1].key != k && es[2].key != k;
      FindAbsent(es, k);
    }
  }

  lemma {:induction false} FindAbsent(es: seq<Entry>, key: string)
    requires forall i :: 0 <= i < |es| ==> es[i].key != key
    ensures Find(es, key) == None
  {
    if es != [] {
      FindAbsent(es[1..], key);
    }
  }

  lemma EncodedReference(sys: string, scheme: string, reference: string, alg: string, digest: string)
    ensures var v := EncodeBinding(AuthzSystemReference(sys, scheme, reference, alg, digest));
            && GetString(v, "binding_type") == Some(BINDING_TYPE_AUTHZ_SYSTEM_REFERENCE)
            && GetString(v, "authorization_system_id") == Some(sys)
            && GetString(v, "reference_scheme_id") == Some(scheme)
            && GetString(v, "reference_value") == Some(reference)
            && GetString(v, "digest_alg") == Some(alg)
            && GetString(v, "digest_value") == Some(digest)
  {
    var es := EncodeBinding(AuthzSystemReference(sys, scheme, reference, alg, digest)).entries;
    FindAt(es, 0);
    FindAt(es, 1);
    FindAt(es, 2);
    FindAt(es, 3);
    FindAt(es, 4);
    FindAt(es, 5);
  }

  /** A binding reads back as itself, and passes the structural check exactly when it is proper. */
  lemma BindingRoundTrip(b: AuthorizationBinding)
    ensures ReadBinding(EncodeBinding(b)) == Some(b)
    ensures CheckBinding(EncodeBinding(b)).Ok? <==> ProperBinding(b)
  {
    var v := EncodeBinding(b);
    match b
    case OpaqueBytes(alg, digest) =>
      EncodedOpaque(alg, digest);
      OpaqueChecked(v, alg, digest);
    case AuthzSystemReference(sys, scheme, reference, alg, digest) =>
      EncodedReference(sys, scheme, reference, alg, digest);
      ReferenceChecked(v, sys, scheme, reference, alg, digest);
  }

  lemma OpaqueChecked(v: Value, alg: string, digest: string)
    requires v.Object? && |v.entries| == 3
    requires GetString(v, OPAQUE_FIELDS[0]) == Some(BINDING_TYPE_OPAQUE_BYTES)
    requires GetString(v, OPAQUE_FIELDS[1]) == Some(alg) && GetString(v, OPAQUE_FIELDS[2]) == Some(digest)
    ensures CheckBindingFields(v, OPAQUE_FIELDS).Ok? <==> alg == DIGEST_ALG_SHA256 && digest != ""
  {
    var fields := OPAQUE_FIELDS;
    assert fields[0] in fields && fields[1] in fields && fields[2] in fields;
  }

  lemma ReferenceChecked(v: Value, sys: string, scheme: string, reference: string, alg: string, digest: string)
    requires v.Object? && |v.entries| == 6
    requires var f := REFERENCE_FIELDS;
             && GetString(v, f[0]) == Some(BINDING_TYPE_AUTHZ_SYSTEM_REFERENCE) && GetString(v, f[1]) == Some(sys)
             && GetString(v, f[2]) == Some(scheme) && GetString(v, f[3]) == Some(reference)
             && GetString(v, f[4]) == Some(alg) && GetString(v, f[5]) == Some(digest)
    ensures CheckBindingFields(v, REFERENCE_FIELDS).Ok? <==>
            alg == DIGEST_ALG_SHA256 && digest != "" && sys != "" && scheme != "" && reference != ""
  {
    var fields := REFERENCE_FIELDS;
    assert fields[1] in fields && fields[2] in fields && fields[3] in fields && fields[4] in fields && fields[5] in fields;
  }

  // ----- The authored envelope reads back as the inputs -----

  lemma SignedBlockReads(keyId: string, signature: string)
    ensures SignatureProblem(SignedBlock(keyId, signature)).None?
    ensures var v := SignedBlock(keyId, signature);
            GetString(v, "alg") == Some(SIG_ALG_ED25519) && GetString(v, "key_id") == Some(keyId) &&
            GetString(v, "value") == Some(signature)
  {
    var es := SignedBlock(keyId, signature).entries;
    FindAt(es, 0);
    FindAt(es, 1);
    FindAt(es, 2);
    assert es[1..][1..][1..] == [];
    assert SignatureEntriesProblem(es[1..][1..]).None?;
    assert SignatureEntriesProblem(es[1..]).None?;
  }

  /** The kinds of the envelope's members, in the order they are authored. */
  predicate KindsAre(names: seq<string>, fields: map<string, Kind>) {
    && |names| == 10
    && (forall i :: 0 <= i < 10 ==> names[i] in fields)
    && (forall i :: 0 <= i < 10 && i != 5 && i != 9 ==> fields[names[i]] == Text)
    && fields[names[5]] == Kind.Binding && fields[names[9]] == Kind.Signature
  }

  lemma EnvelopeKinds()
    ensures KindsAre(ENVELOPE_NAMES, DRAFT02_REQUEST_FIELDS)
  {
  }

  lemma EnvelopeFieldsNamed(key: string)
    requires key in DRAFT02_REQUEST_FIELDS
    ensures key in ENVELOPE_NAMES
  {
  }

  lemma AuthoredEntriesClean(inputs: Inputs, signature: string, fields: map<string, Kind>)
    requires KindsAre(ENVELOPE_NAMES, fields)
    ensures EntriesProblem(EnvelopeEntries(inputs, SignedBlock(inputs.keyId, signature)), fields).None?
  {
    var es := EnvelopeEntries(inputs, SignedBlock(inputs.keyId, signature));
    EnvelopeNamed(inputs, SignedBlock(inputs.keyId, signature));
    SignedBlockReads(inputs.keyId, signature);
    BindingRoundTrip(inputs.binding);
    forall i | 0 <= i < |es| ensures IsFieldOf(es[i], fields) {
      EntryExactly(es[i], fields);
    }
    EntriesExactly(es, fields);
  }

  lemma AuthoredShape(inputs: Inputs, signature: string)
    ensures CheckShape(Object(EnvelopeEntries(inputs, SignedBlock(inputs.keyId, signature))), DRAFT02_REQUEST_FIELDS).Ok?
  {
    var es := EnvelopeEntries(inputs, SignedBlock(inputs.keyId, signature));
    EnvelopeKinds();
    AuthoredEntriesClean(inputs, signature, DRAFT02_REQUEST_FIELDS);
    EnvelopeNamed(inputs, SignedBlock(inputs.keyId, signature));
    NamesDistinct();
    forall k | k in DRAFT02_REQUEST_FIELDS ensures Find(es, k).Some? {
      EnvelopeFieldsNamed(k);
      var i :| 0 <= i < |ENVELOPE_NAMES| && ENVELOPE_NAMES[i] == k;
      FindNamed(es, ENVELOPE_NAMES, i);
    }
  }

  function CommonOf(inputs: Inputs, signature: string): Common {
    Common(VERSION_DRAFT_02, inputs.signer, inputs.onBehalfOf, inputs.audience, inputs.nonce,
           inputs.issuedAt, inputs.expiresAt, SignatureBlock(SIG_ALG_ED25519, inputs.keyId, Some(signature)))
  }

  lemma AuthoredFields(inputs: Inputs, block: Value)
    ensures var raw := Object(EnvelopeEntries(inputs, block));
            && Get(raw, "version") == Some(String(VERSION_DRAFT_02))
            && Get(raw, "canonicalization_id") == Some(String(inputs.canonicalizationId))
            && Get(raw, "signer") == Some(String(inputs.signer))
            && Get(raw, "on_behalf_of") == Some(String(inputs.onBehalfOf))
            && Get(raw, "audience") == Some(String(inputs.audience))
            && Get(raw, "authorization_binding") == Some(EncodeBinding(inputs.binding))
            && Get(raw, "nonce") == Some(String(inputs.nonce))
            && Get(raw, "issued_at") == Some(String(inputs.issuedAt))
            && Get(raw, "expires_at") == Some(String(inputs.expiresAt))
            && Get(raw, "signature") == Some(block)
  {
    var es := EnvelopeEntries(inputs, block);
    EnvelopeNamed(inputs, block);
    NamesDistinct();
    forall i | 0 <= i < |ENVELOPE_NAMES| ensures Find(es, ENVELOPE_NAMES[i]) == Some(es[i].value) {
      FindNamed(es, ENVELOPE_NAMES, i);
    }
    var names := ENVELOPE_NAMES;
    assert Find(es, names[0]).Some? && Find(es, names[1]).Some? && Find(es, names[2]).Some? && Find(es, names[3]).Some?;
    assert Find(es, names[4]).Some? && Find(es, names[5]).Some? && Find(es, names[6]).Some? && Find(es, names[7]).Some?;
    assert Find(es, names[8]).Some? && Find(es, names[9]).Some?;
  }

  lemma AuthoredCommon(inputs: Inputs, signature: string)
    ensures ReadCommon(Object(EnvelopeEntries(inputs, SignedBlock(inputs.keyId, signature)))) == CommonOf(inputs, signature)
  {
    AuthoredFields(inputs, SignedBlock(inputs.keyId, signature));
    SignedBlockReads(inputs.keyId, signature);
  }

  lemma AuthoredSelectors(inputs: Inputs, block: Value)
    requires inputs.canonicalizationId in DRAFT_02_CANONICALIZATION_ALLOWLIST
    ensures CheckSelectors(Object(EnvelopeEntries(inputs, block))).Ok? <==> ProperBinding(inputs.binding)
  {
    AuthoredFields(inputs, block);
    BindingRoundTrip(inputs.binding);
  }

  lemma AuthoredDeserializes(inputs: Inputs, signature: string)
    ensures DeserializeDraft02(Object(EnvelopeEntries(inputs, SignedBlock(inputs.keyId, signature)))) ==
            Ok(Draft02RequestEnvelope(CommonOf(inputs, signature), inputs.canonicalizationId, inputs.binding))
  {
    AuthoredShape(inputs, signature);
    AuthoredFields(inputs, SignedBlock(inputs.keyId, signature));
    AuthoredCommon(inputs, signature);
    BindingRoundTrip(inputs.binding);
  }

  /** The verifier's reading of an authored request is the inputs it was authored from. */
  lemma AuthoredClaims(id: Value, rpcMethod: string, params: seq<Entry>, inputs: Inputs, signature: string)
    requires inputs.canonicalizationId in DRAFT_02_CANONICALIZATION_ALLOWLIST
    ensures var claims := Claims(Draft02, Author(id, rpcMethod, params, inputs, SignedBlock(inputs.keyId, signature)));
            if ProperBinding(inputs.binding)
            then claims == Ok((CommonOf(inputs, signature), Draft02Binding(inputs.binding), Some(inputs.canonicalizationId)))
            else claims.Err?
  {
    var block := SignedBlock(inputs.keyId, signature);
    AuthoredEnvelope(id, rpcMethod, params, inputs, block);
    AuthoredSelectors(inputs, block);
    AuthoredDeserializes(inputs, signature);
  }

  // ----- Acceptance of what was built -----

  /** The wire text decodes to the message, and is in the grammar exactly as the message is in the domain. */
  ghost predicate Carries(w: World, text: string, v: Value) {
    && w.decode(text) == Some(v)
    && forall j :: Grammar.Derives(text, j) <==> ToJcs(v, 0) == Some(j)
  }

  lemma CarriedText(w: World, text: string, v: Value)
    requires Carries(w, text, v)
    ensures Canonical.Canonicalize(text).Ok? <==> InDomain(v, 0)
  {
    Canonical.CanonicalizeTotal(text);
    if Recognizer.Parse(text).Ok? {
      Recognizer.ParseDecidesGrammar(text, Recognizer.Parse(text).value);
    }
    if InDomain(v, 0) {
      Recognizer.ParseDecidesGrammar(text, ToJcs(v, 0).value);
    }
  }

  /** The preimage the builder hands to the signer. */
  function Preimage(id: Value, rpcMethod: string, params: seq<Entry>, inputs: Inputs): Result<string> {
    Signing.SigningPreimage(Author(id, rpcMethod, params, inputs, Block(inputs.keyId)), Signing.Request)
  }

  /** The key the server resolves verifies the signature the builder got. */
  predicate KeyAgrees(w: World, preimage: string, inputs: Inputs, sign: string -> Result<string>, resolver: Resolver) {
    && resolver(inputs.signer, inputs.keyId).Resolved?
    && sign(preimage).Ok?
    && w.verifies(resolver(inputs.signer, inputs.keyId).key, preimage, sign(preimage).value)
  }

  /** What a build does not check and the verifier does. */
  predicate Acceptable(w: World, id: Value, params: seq<Entry>, preimage: string, inputs: Inputs, sign: string -> Result<string>,
                       resolver: Resolver, config: Config, now: int)
  {
    && !id.Null?
    && TracesInDomain(MetaEntries(params))
    && ProperBinding(inputs.binding)
    && inputs.onBehalfOf != ""
    && inputs.audience == config.expectedAudience
    && Timely(inputs.issuedAt, inputs.expiresAt, config.maxClockSkew, now)
    && KeyAgrees(w, preimage, inputs, sign, resolver)
  }

  lemma GenuineUnfolds(w: World, text: string, value: Value, id: Value, inDomain: bool, env: Common, resolver: Resolver,
                       config: Config, now: int)
    requires w.decode(text) == Some(value) && value.Object? && Get(value, "id") == Some(id)
    requires Canonical.Canonicalize(text).Ok? <==> inDomain
    requires Claims(Draft02, value).Ok? ==> Claims(Draft02, value).value.0 == env
    ensures Genuine(w, Draft02, text, value, resolver, config, now) <==>
            && inDomain && !id.Null? && Claims(Draft02, value).Ok? && env.onBehalfOf != ""
            && env.audience == config.expectedAudience
            && Timely(env.issuedAt, env.expiresAt, config.maxClockSkew, now)
            && SignedBy(w, value, env, resolver)
  {
  }

  lemma SignedByInputs(w: World, value: Value, inputs: Inputs, sign: string -> Result<string>, preimage: string, resolver: Resolver)
    requires Signing.SigningPreimage(value, Signing.Request) == Ok(preimage) && sign(preimage).Ok?
    ensures SignedBy(w, value, CommonOf(inputs, sign(preimage).value), resolver) <==>
            KeyAgrees(w, preimage, inputs, sign, resolver)
  {
  }

  lemma BuiltGenuine(w: World, id: Value, rpcMethod: string, params: seq<Entry>, inputs: Inputs, sign: string -> Result<string>,
                     text: string, resolver: Resolver, config: Config, now: int)
    requires Build(w, id, rpcMethod, params, inputs, sign).Ok?
    requires Carries(w, text, Build(w, id, rpcMethod, params, inputs, sign).value.request)
    ensures var request := Build(w, id, rpcMethod, params, inputs, sign).value.request;
            && Preimage(id, rpcMethod, params, inputs).Ok?
            && (Genuine(w, Draft02, text, request, resolver, config, now) <==>
                Acceptable(w, id, params, Preimage(id, rpcMethod, params, inputs).value, inputs, sign, resolver, config, now))
            && (Genuine(w, Draft02, text, request, resolver, config, now) ==>
                Claims(Draft02, request) == Ok((CommonOf(inputs, sign(Preimage(id, rpcMethod, params, inputs).value).value),
                                                Draft02Binding(inputs.binding), Some(inputs.canonicalizationId))))
  {
    BuiltExactly(w, id, rpcMethod, params, inputs, sign);
    var preimage := Preimage(id, rpcMethod, params, inputs).value;
    AuthoredGenuine(w, id, rpcMethod, params, inputs, sign, preimage, text, resolver, config, now);
  }

  lemma AuthoredGenuine(w: World, id: Value, rpcMethod: string, params: seq<Entry>, inputs: Inputs, sign: string -> Result<string>,
                        preimage: string, text: string, resolver: Resolver, config: Config, now: int)
    requires inputs.canonicalizationId in DRAFT_02_CANONICALIZATION_ALLOWLIST
    requires Preimage(id, rpcMethod, params, inputs) == Ok(preimage) && sign(preimage).Ok?
    requires var request := Author(id, rpcMethod, params, inputs, SignedBlock(inputs.keyId, sign(preimage).value));
             Carries(w, text, request) && Signing.SigningPreimage(request, Signing.Request) == Ok(preimage)
    ensures var request := Author(id, rpcMethod, params, inputs, SignedBlock(inputs.keyId, sign(preimage).value));
            && (Genuine(w, Draft02, text, request, resolver, config, now) <==>
                Acceptable(w, id, params, preimage, inputs, sign, resolver, config, now))
            && (Genuine(w, Draft02, text, request, resolver, config, now) ==>
                Claims(Draft02, request) ==
                Ok((CommonOf(inputs, sign(preimage).value), Draft02Binding(inputs.binding), Some(inputs.canonicalizationId))))
  {
    var signature := sign(preimage).value;
    var block := SignedBlock(inputs.keyId, signature);
    var request := Author(id, rpcMethod, params, inputs, block);
    CarriedText(w, text, request);
    TracesDecide(id, rpcMethod, params, inputs, signature);
    AuthoredEnvelope(id, rpcMethod, params, inputs, block);
    AuthoredClaims(id, rpcMethod, params, inputs, signature);
    GenuineUnfolds(w, text, request, id, TracesInDomain(MetaEntries(params)), CommonOf(inputs, signature), resolver, config, now);
    SignedByInputs(w, request, inputs, sign, preimage, resolver);
  }

  /** What an accepting verifier returns for a request built from these inputs. */
  function RecordOf(inputs: Inputs, requestHash: string): VerifiedRequest {
    VerifiedRequest(inputs.signer, inputs.keyId, inputs.onBehalfOf, inputs.audience, Draft02Binding(inputs.binding), requestHash,
                    inputs.nonce, inputs.issuedAt, inputs.expiresAt, Some(inputs.canonicalizationId))
  }

  /**
   * Builder and verifier agree, exactly: the draft-02 verifier accepts a built request if
   * and only if it is acceptable and its nonce is unseen. It then returns the builder's
   * inputs, under the request hash the builder computed.
   */
  lemma BuiltAcceptedExactly(w: World, id: Value, rpcMethod: string, params: seq<Entry>, inputs: Inputs,
                             sign: string -> Result<string>, text: string, resolver: Resolver, cache: Replay.Cache,
                             config: Config, now: int)
    requires IsI64(now) && IsI64(config.maxClockSkew)
    requires Build(w, id, rpcMethod, params, inputs, sign).Ok?
    requires Carries(w, text, Build(w, id, rpcMethod, params, inputs, sign).value.request)
    ensures var r := VerifyUnder(w, Draft02, text, resolver, cache, config, now).0;
            && Preimage(id, rpcMethod, params, inputs).Ok?
            && (r.Ok? <==>
                && Acceptable(w, id, params, Preimage(id, rpcMethod, params, inputs).value, inputs, sign, resolver, config, now)
                && Replay.ReplayKey(inputs.signer, inputs.audience, inputs.nonce) !in cache.seen)
            && (r.Ok? ==> r.value == RecordOf(inputs, Build(w, id, rpcMethod, params, inputs, sign).value.requestHash))
  {
    var built := Build(w, id, rpcMethod, params, inputs, sign).value;
    BuiltGenuine(w, id, rpcMethod, params, inputs, sign, text, resolver, config, now);
    AcceptedExactly(w, Draft02, text, resolver, cache, config, now);
    BuiltExactly(w, id, rpcMethod, params, inputs, sign);
    if VerifyUnder(w, Draft02, text, resolver, cache, config, now).0.Ok? {
      AcceptedRecord(w, Draft02, text, resolver, cache, config, now);
    }
  }

  /**
   * A build that succeeds is not thereby acceptable: put a fraction under `traceparent` in the
   * params of any successful build, and it builds to the same hash and is always refused.
   */
  lemma BuiltButRefused(w: World, id: Value, rpcMethod: string, params: seq<Entry>, inputs: Inputs,
                        sign: string -> Result<string>, text: string, resolver: Resolver, cache: Replay.Cache,
                        config: Config, now: int, token: string)
    requires IsI64(now) && IsI64(config.maxClockSkew)
    requires Build(w, id, rpcMethod, params, inputs, sign).Ok?
    ensures var traced := WithTrace(params, NonInteger(token));
            var built := Build(w, id, rpcMethod, traced, inputs, sign);
            && built.Ok?
            && built.value.requestHash == Build(w, id, rpcMethod, params, inputs, sign).value.requestHash
            && (Carries(w, text, built.value.request) ==>
                VerifyUnder(w, Draft02, text, resolver, cache, config, now).0.Err?)
  {
    var traced := WithTrace(params, NonInteger(token));
    TraceKeepsPreimage(id, rpcMethod, params, inputs, NonInteger(token));
    BuiltExactly(w, id, rpcMethod, params, inputs, sign);
    BuiltExactly(w, id, rpcMethod, traced, inputs, sign);
    if Carries(w, text, Build(w, id, rpcMethod, traced, inputs, sign).value.request) {
      BuiltAcceptedExactly(w, id, rpcMethod, traced, inputs, sign, text, resolver, cache, config, now);
      TraceOutside(params, token);
    }
  }

  lemma TraceOutside(params: seq<Entry>, token: string)
    ensures !TracesInDomain(MetaEntries(WithTrace(params, NonInteger(token))))
  {
    var trace := NonInteger(token);
    TraceIsStripped(params, trace, Null);
    PutWrites(MetaEntries(params), "traceparent", trace);
    var e := Entry("traceparent", trace);
    assert Signing.OBSERVABILITY_META_KEYS[0] == e.key;
    assert e in MetaEntries(WithTrace(params, trace)) && !InDomain(e.value, 3);
  }
}
