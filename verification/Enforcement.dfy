/** Response verification on the client, and the local policy that decides what an exchange is worth. */
module Enforcement {
  import opened Outcome
  import opened Message
  import opened Envelope
  import opened Pipeline
  import Binding
  import Signing
  import Verification

  datatype Mode = RequireMcps | AllowLegacyExplicit

  datatype AbsenceReason = TransportFailurePreEvidence | PlainUnsigned | ExplicitUnsupportedHint

  datatype Evidence = Verified(response: VerifiedResponse) | Absent(reason: AbsenceReason) | Invalid(error: McpsError)

  datatype Decision = AcceptMcps | FallBackToLegacy(reason: AbsenceReason) | FailClosed(error: McpsError)

  datatype Expectation = Expectation(requestHash: string, canonicalizationId: string, serverSigner: Option<string>)

  function VerifySignedResponse(w: World, text: string, resolver: Resolver, e: Expectation): Result<VerifiedResponse> {
    var verified :- VerifyResponseDraft02(w, text, resolver, e.requestHash, e.canonicalizationId);
    if e.serverSigner.Some? && verified.serverSigner != e.serverSigner.value then Err(ActorBindingFailed)
    else Ok(verified)
  }

  function Classify(r: Result<VerifiedResponse>): Evidence {
    match r
    case Ok(v) => Verified(v)
    case Err(MissingEnvelope) => Absent(PlainUnsigned)
    case Err(e) => Invalid(e)
  }

  function AbsenceCode(reason: AbsenceReason): McpsError {
    match reason
    case PlainUnsigned => MissingEnvelope
    case _ => DowngradeForbidden
  }

  function Decide(mode: Mode, legacyAllowed: bool, outcome: Evidence): Decision {
    match outcome
    case Verified(_) => AcceptMcps
    case Invalid(e) => FailClosed(e)
    case Absent(reason) =>
      match mode
      case RequireMcps => FailClosed(AbsenceCode(reason))
      case AllowLegacyExplicit =>
        if legacyAllowed then FallBackToLegacy(reason) else FailClosed(AbsenceCode(reason))
  }

  // ----- What counts as absent -----

  /** A shaped envelope has a signature block, as an object or positionally. */
  lemma ShapedHasBlock(raw: Value, fields: map<string, Kind>)
    requires CheckShape(raw, fields).Ok? && "signature" in fields && fields["signature"] == Kind.Signature
    ensures Get(raw, "signature").Some?
    ensures Get(raw, "signature").value.Object? || IsPositionalSignature(Get(raw, "signature").value)
  {
    Binding.EntriesAreTyped(raw.entries, fields, "signature");
  }

  /** The preimage reports a missing envelope exactly when the block is no object. */
  lemma PreimageErrors(value: Value, loc: Signing.Location)
    requires LocateEnvelope(value, loc).Ok? && Get(LocateEnvelope(value, loc).value, "signature").Some?
    ensures Signing.SigningPreimage(value, loc) == Err(MissingEnvelope) <==>
            !Get(LocateEnvelope(value, loc).value, "signature").value.Object?
  {
  }

  lemma SignatureCheckErrors(w: World, value: Value, env: ResponseEnvelope, resolver: Resolver)
    ensures CheckResponseSignature(w, value, env, resolver) == Err(MissingEnvelope) <==>
            && env.signature.alg == SIG_ALG_ED25519
            && resolver(env.serverSigner, env.signature.keyId).Resolved?
            && Signing.SigningPreimage(value, Signing.Response) == Err(MissingEnvelope)
  {
  }

  lemma AdmissibleErrors(w: World, text: string)
    ensures Admissible(w, text) != Err(MissingEnvelope)
  {
  }

  /** The signature block of a located envelope is written as an array of its fields. */
  predicate BlockIsPositional(envelope: Value) {
    Get(envelope, "signature").Some? && IsPositionalSignature(Get(envelope, "signature").value)
  }

  lemma ExtractErrors(value: Value)
    requires LocateEnvelope(value, Signing.Response).Ok?
    ensures ExtractDraft02Response(value) != Err(MissingEnvelope)
    ensures ExtractDraft02Response(value).Ok? ==>
              (Signing.SigningPreimage(value, Signing.Response) == Err(MissingEnvelope) <==>
               BlockIsPositional(LocateEnvelope(value, Signing.Response).value))
  {
    var raw := LocateEnvelope(value, Signing.Response).value;
    ShapeErrors(raw, DRAFT02_RESPONSE_FIELDS);
    if ExtractDraft02Response(value).Ok? {
      ShapedHasBlock(raw, DRAFT02_RESPONSE_FIELDS);
      PreimageErrors(value, Signing.Response);
    }
  }

  /** The response is a well-formed JSON-RPC reply without an MCP-S envelope. */
  predicate PlainReply(w: World, text: string) {
    && w.decode(text).Some?
    && Verification.IsRequestText(w, text, w.decode(text).value)
    && LocateEnvelope(w.decode(text).value, Signing.Response).Err?
  }

  /** The reply has a well-formed envelope of a resolvable signer, with a positional signature block. */
  predicate PositionalReply(w: World, text: string, resolver: Resolver) {
    && w.decode(text).Some?
    && var value := w.decode(text).value;
    && Verification.IsRequestText(w, text, value)
    && ExtractDraft02Response(value).Ok?
    && var env := ExtractDraft02Response(value).value.response;
    && env.signature.alg == SIG_ALG_ED25519
    && resolver(env.serverSigner, env.signature.keyId).Resolved?
    && LocateEnvelope(value, Signing.Response).Ok?
    && BlockIsPositional(LocateEnvelope(value, Signing.Response).value)
  }

  /** What classification takes as absent evidence. */
  predicate NoEvidence(w: World, text: string, resolver: Resolver) {
    PlainReply(w, text) || PositionalReply(w, text, resolver)
  }

  lemma ResponseMissing(w: World, value: Value, resolver: Resolver, e: Expectation)
    requires LocateEnvelope(value, Signing.Response).Ok? && ExtractDraft02Response(value).Ok?
    ensures var env := ExtractDraft02Response(value).value.response;
            CheckResponseSignature(w, value, env, resolver) == Err(MissingEnvelope) <==>
            && env.signature.alg == SIG_ALG_ED25519
            && resolver(env.serverSigner, env.signature.keyId).Resolved?
            && BlockIsPositional(LocateEnvelope(value, Signing.Response).value)
  {
    ExtractErrors(value);
    SignatureCheckErrors(w, value, ExtractDraft02Response(value).value.response, resolver);
  }

  /**
   * The bright line, exactly: verification reports a missing envelope if and only if the
   * reply is well formed and has none, or it has one whose signature block is positional,
   * which reads as a record and is then not found by the preimage. Every other defect, of
   * the text, the envelope, the signer, the signature or the binding, is reported as such.
   */
  lemma MissingEnvelopeExactly(w: World, text: string, resolver: Resolver, e: Expectation)
    ensures VerifySignedResponse(w, text, resolver, e) == Err(MissingEnvelope) <==> NoEvidence(w, text, resolver)
  {
    Verification.AdmissibleExactly(w, text);
    AdmissibleErrors(w, text);
    if Admissible(w, text).Ok? {
      var value := Admissible(w, text).value;
      if LocateEnvelope(value, Signing.Response).Ok? {
        ExtractErrors(value);
        if ExtractDraft02Response(value).Ok? {
          ResponseMissing(w, value, resolver, e);
        }
      }
    }
  }

  /** Falling back takes migration mode, an allowlisted route and absent evidence, and these suffice. */
  lemma FallBackExactly(w: World, text: string, resolver: Resolver, e: Expectation, mode: Mode, legacyAllowed: bool)
    ensures Decide(mode, legacyAllowed, Classify(VerifySignedResponse(w, text, resolver, e))).FallBackToLegacy? <==>
            mode == AllowLegacyExplicit && legacyAllowed && NoEvidence(w, text, resolver)
  {
    MissingEnvelopeExactly(w, text, resolver, e);
  }
}
