/** What acceptance by the response verifiers means, and which verdict every other response gets. */
module ResponseVerification {
  import opened Outcome
  import opened Message
  import opened Envelope
  import opened Extraction
  import opened Pipeline
  import opened Verification
  import Signing

  /** The resolved key verifies the envelope's signature over the response's preimage. */
  predicate ResponseSignedBy(w: World, value: Value, env: ResponseEnvelope, resolver: Resolver) {
    && env.signature.alg == SIG_ALG_ED25519
    && env.signature.value.Some?
    && resolver(env.serverSigner, env.signature.keyId).Resolved?
    && Signing.SigningPreimage(value, Signing.Response).Ok?
    && w.verifies(resolver(env.serverSigner, env.signature.keyId).key,
                  Signing.SigningPreimage(value, Signing.Response).value, env.signature.value.value)
  }

  /** The verdict by conditions: algorithm, key, preimage and signature, in that order. */
  function SignatureVerdict(w: World, value: Value, env: ResponseEnvelope, resolver: Resolver): Result<()> {
    var answer := resolver(env.serverSigner, env.signature.keyId);
    var preimage := Signing.SigningPreimage(value, Signing.Response);
    if env.signature.alg != "Ed25519" then Err(ResponseSigInvalid)
    else if answer == Refused(Unavailable) then Err(TrustResolverUnavailable)
    else if answer.Refused? then Err(ActorBindingFailed)
    else if preimage.Err? then Err(preimage.error)
    else if !ResponseSignedBy(w, value, env, resolver) then Err(ResponseSigInvalid)
    else Ok(())
  }

  lemma SignatureExactly(w: World, value: Value, env: ResponseEnvelope, resolver: Resolver)
    ensures CheckResponseSignature(w, value, env, resolver) == SignatureVerdict(w, value, env, resolver)
    ensures CheckResponseSignature(w, value, env, resolver).Ok? <==> ResponseSignedBy(w, value, env, resolver)
  {
  }

  /** A genuine draft-01 response to the request with this hash. */
  predicate GenuineResponse(w: World, raw: string, value: Value, envelope: Value, resolver: Resolver, hash: string) {
    && IsRequestText(w, raw, value)
    && ResponseEnvelopeIs(value, envelope) && IsEnvelope(envelope, RESPONSE_TEXTS, false)
    && ResponseSignedBy(w, value, ReadResponse(envelope), resolver)
    && TextIs(envelope, "request_hash", hash)
  }

  lemma HashRead(envelope: Value, texts: set<string>, hash: string)
    requires IsEnvelope(envelope, texts, false) && OfResponse(texts)
    ensures ResponseReads(envelope, ReadResponse(envelope))
    ensures ReadResponse(envelope).requestHash == hash <==> TextIs(envelope, "request_hash", hash)
  {
    ResponseRead(envelope, texts);
  }

  /**
   * A draft-01 response is accepted if and only if it is a genuine response to the request
   * with the expected hash; what is returned is what its envelope states.
   */
  lemma ResponseAcceptedExactly(w: World, raw: string, resolver: Resolver, hash: string, envelope: Value)
    requires w.decode(raw).Some? && ResponseEnvelopeIs(w.decode(raw).value, envelope)
    ensures VerifyResponse(w, raw, resolver, hash).Ok? <==> GenuineResponse(w, raw, w.decode(raw).value, envelope, resolver, hash)
    ensures VerifyResponse(w, raw, resolver, hash).Ok? ==>
            var env := ReadResponse(envelope);
            && ResponseReads(envelope, env)
            && VerifyResponse(w, raw, resolver, hash).value == VerifiedResponse(env.serverSigner, env.signature.keyId, hash)
  {
    var value := w.decode(raw).value;
    AdmissibleExactly(w, raw);
    ResponseExactly(value, envelope);
    SignatureExactly(w, value, ReadResponse(envelope), resolver);
    if IsEnvelope(envelope, RESPONSE_TEXTS, false) {
      ResponseTexts();
      HashRead(envelope, RESPONSE_TEXTS, hash);
    }
  }

  /** A well-shaped response gets the verdict of the first condition it fails. */
  lemma ResponseVerdicts(w: World, raw: string, resolver: Resolver, hash: string, envelope: Value)
    requires w.decode(raw).Some? && IsRequestText(w, raw, w.decode(raw).value)
    requires ResponseEnvelopeIs(w.decode(raw).value, envelope) && IsEnvelope(envelope, RESPONSE_TEXTS, false)
    ensures var r := VerifyResponse(w, raw, resolver, hash);
            var signed := SignatureVerdict(w, w.decode(raw).value, ReadResponse(envelope), resolver);
            if signed.Err? then r == Err(signed.error)
            else if !TextIs(envelope, "request_hash", hash) then r == Err(ResponseHashMismatch)
            else r.Ok?
  {
    var value := w.decode(raw).value;
    AdmissibleExactly(w, raw);
    ResponseExactly(value, envelope);
    SignatureExactly(w, value, ReadResponse(envelope), resolver);
    ResponseTexts();
    HashRead(envelope, RESPONSE_TEXTS, hash);
  }

  /** A genuine draft-02 response to the request with this hash, under this canonicalization. */
  predicate GenuineDraft02Response(w: World, raw: string, value: Value, envelope: Value, resolver: Resolver, hash: string, id: string) {
    && IsRequestText(w, raw, value)
    && ResponseEnvelopeIs(value, envelope) && IsDraft02Response(envelope)
    && ResponseSignedBy(w, value, ReadResponse(envelope), resolver)
    && TextIs(envelope, "request_hash", hash) && TextIs(envelope, "canonicalization_id", id)
  }

  lemma Draft02ResponseAcceptedExactly(w: World, raw: string, resolver: Resolver, hash: string, id: string, envelope: Value)
    requires w.decode(raw).Some? && ResponseEnvelopeIs(w.decode(raw).value, envelope)
    ensures VerifyResponseDraft02(w, raw, resolver, hash, id).Ok? <==>
            GenuineDraft02Response(w, raw, w.decode(raw).value, envelope, resolver, hash, id)
    ensures VerifyResponseDraft02(w, raw, resolver, hash, id).Ok? ==>
            var env := ReadResponse(envelope);
            && ResponseReads(envelope, env)
            && VerifyResponseDraft02(w, raw, resolver, hash, id).value == VerifiedResponse(env.serverSigner, env.signature.keyId, hash)
  {
    var value := w.decode(raw).value;
    AdmissibleExactly(w, raw);
    Draft02ResponseExactly(value, envelope);
    SignatureExactly(w, value, ReadResponse(envelope), resolver);
    if IsDraft02Response(envelope) {
      ResponseTexts();
      HashRead(envelope, DRAFT02_RESPONSE_TEXTS, hash);
    }
  }

  lemma Draft02ResponseVerdicts(w: World, raw: string, resolver: Resolver, hash: string, id: string, envelope: Value)
    requires w.decode(raw).Some? && IsRequestText(w, raw, w.decode(raw).value)
    requires ResponseEnvelopeIs(w.decode(raw).value, envelope) && IsDraft02Response(envelope)
    ensures var r := VerifyResponseDraft02(w, raw, resolver, hash, id);
            var signed := SignatureVerdict(w, w.decode(raw).value, ReadResponse(envelope), resolver);
            if signed.Err? then r == Err(signed.error)
            else if !TextIs(envelope, "canonicalization_id", id) then r == Err(CanonicalizationIdMismatch)
            else if !TextIs(envelope, "request_hash", hash) then r == Err(ResponseHashMismatch)
            else r.Ok?
  {
    var value := w.decode(raw).value;
    AdmissibleExactly(w, raw);
    Draft02ResponseExactly(value, envelope);
    SignatureExactly(w, value, ReadResponse(envelope), resolver);
    ResponseTexts();
    HashRead(envelope, DRAFT02_RESPONSE_TEXTS, hash);
  }

  /** Responses that are no single reply with an id in the canonical domain, or have no envelope, are never accepted. */
  lemma ResponseRefusals(w: World, raw: string, resolver: Resolver, hash: string, id: string)
    ensures w.decode(raw).None? || !IsRequestText(w, raw, w.decode(raw).value) ==>
            VerifyResponse(w, raw, resolver, hash).Err? && VerifyResponseDraft02(w, raw, resolver, hash, id).Err?
    ensures w.decode(raw).Some? && IsRequestText(w, raw, w.decode(raw).value) &&
            GetPath(w.decode(raw).value, ["result", "_meta", "se.syncom/mcps.response"]).None? ==>
            VerifyResponse(w, raw, resolver, hash) == Err(MissingEnvelope) &&
            VerifyResponseDraft02(w, raw, resolver, hash, id) == Err(MissingEnvelope)
  {
    AdmissibleExactly(w, raw);
    if w.decode(raw).Some? {
      NotLocated(w.decode(raw).value);
    }
  }
}
