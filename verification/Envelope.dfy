/** Fail-closed message-shape constraints and the typed envelopes. */
module Envelope {
  import opened Outcome
  import opened Message
  import Signing

  const VERSION_DRAFT_01: string := "draft-01"
  const VERSION_DRAFT_02: string := "draft-02"
  const CANONICALIZATION_ID_INT53_V1: string := "mcps-jcs-int53-json-v1"
  const SIG_ALG_ED25519: string := "Ed25519"
  const BINDING_TYPE_OPAQUE_BYTES: string := "opaque-bytes"
  const BINDING_TYPE_AUTHZ_SYSTEM_REFERENCE: string := "authz-system-reference"
  const DIGEST_ALG_SHA256: string := "sha256"

  const DRAFT_02_CANONICALIZATION_ALLOWLIST: seq<string> := [CANONICALIZATION_ID_INT53_V1]
  const KNOWN_CANONICALIZATION_SCHEMES: seq<string> := [CANONICALIZATION_ID_INT53_V1]

  // ----- Records -----

  datatype SignatureBlock = SignatureBlock(alg: string, keyId: string, value: Option<string>)

  datatype AuthorizationBinding =
    | OpaqueBytes(digestAlg: string, digestValue: string)
    | AuthzSystemReference(systemId: string, schemeId: string, referenceValue: string,
                           digestAlg: string, digestValue: string)

  /** The members both request profiles share. */
  datatype Common = Common(
    version: string, signer: string, onBehalfOf: string, audience: string,
    nonce: string, issuedAt: string, expiresAt: string, signature: SignatureBlock)

  datatype RequestEnvelope = RequestEnvelope(common: Common, authorizationHash: string)

  datatype Draft02RequestEnvelope = Draft02RequestEnvelope(
    common: Common, canonicalizationId: string, binding: AuthorizationBinding)

  datatype ResponseEnvelope = ResponseEnvelope(
    requestHash: string, serverSigner: string, issuedAt: string, signature: SignatureBlock)

  datatype Draft02ResponseEnvelope = Draft02ResponseEnvelope(
    version: string, canonicalizationId: string, response: ResponseEnvelope)

  // ----- Structural rejects -----

  function RejectBatch(msg: Value): Result<()> {
    Need(!msg.Array?, BatchForbidden)
  }

  function RejectNotification(msg: Value): Result<()> {
    match Get(msg, "id")
    case Some(id) => Need(!id.Null?, NotificationForbidden)
    case None => Err(NotificationForbidden)
  }

  function LocateEnvelope(msg: Value, loc: Signing.Location): Result<Value> {
    var container :- OkOr(Get(msg, Signing.ContainerKey(loc)), MissingEnvelope);
    var meta :- OkOr(Get(container, "_meta"), MissingEnvelope);
    OkOr(Get(meta, Signing.MetaKey(loc)), MissingEnvelope)
  }

  // ----- Reading a record from an object -----

  datatype Kind = Text | Signature | Binding

  const SIGNATURE_FIELDS: seq<string> := ["alg", "key_id", "value"]

  const COMMON_FIELDS: map<string, Kind> := map[
    "version" := Text, "signer" := Text, "on_behalf_of" := Text, "audience" := Text,
    "nonce" := Text, "issued_at" := Text, "expires_at" := Text, "signature" := Signature]

  const REQUEST_FIELDS: map<string, Kind> := COMMON_FIELDS + map["authorization_hash" := Text]

  const DRAFT02_REQUEST_FIELDS: map<string, Kind> :=
    COMMON_FIELDS + map["canonicalization_id" := Text, "authorization_binding" := Binding]

  const RESPONSE_FIELDS: map<string, Kind> := map[
    "request_hash" := Text, "server_signer" := Text, "issued_at" := Text, "signature" := Signature]

  const DRAFT02_RESPONSE_FIELDS: map<string, Kind> :=
    RESPONSE_FIELDS + map["version" := Text, "canonicalization_id" := Text]

  /** A record written as an array of its fields, in the order they are declared. */
  predicate IsPositionalSignature(v: Value) {
    && v.Array? && |v.items| == 3
    && v.items[0].String? && v.items[1].String? && (v.items[2].String? || v.items[2].Null?)
  }

  /** Why a signature block does not read as one, in the order of its entries. */
  function SignatureProblem(v: Value): Option<McpsError> {
    if IsPositionalSignature(v) then None
    else if !v.Object? then Some(CanonicalizationFailed)
    else match SignatureEntriesProblem(v.entries)
      case Some(e) => Some(e)
      case None =>
        if Get(v, "alg").Some? && Get(v, "key_id").Some? then None else Some(CanonicalizationFailed)
  }

  function SignatureEntriesProblem(es: seq<Entry>): Option<McpsError> {
    if es == [] then None
    else if es[0].key !in SIGNATURE_FIELDS then Some(UnknownEnvelopeField)
    else if es[0].value.String? || (es[0].key == "value" && es[0].value.Null?)
    then SignatureEntriesProblem(es[1..])
    else Some(CanonicalizationFailed)
  }

  function EntryProblem(e: Entry, fields: map<string, Kind>): Option<McpsError> {
    if e.key !in fields then Some(UnknownEnvelopeField)
    else match fields[e.key]
      case Signature => SignatureProblem(e.value)
      case Binding => if ReadBinding(e.value).Some? then None else Some(CanonicalizationFailed)
      case Text => if e.value.String? then None else Some(CanonicalizationFailed)
  }

  function EntriesProblem(es: seq<Entry>, fields: map<string, Kind>): Option<McpsError> {
    if es == [] then None
    else match EntryProblem(es[0], fields)
      case Some(e) => Some(e)
      case None => EntriesProblem(es[1..], fields)
  }

  /** Deserialization with unknown members denied and every field required. */
  function CheckShape(raw: Value, fields: map<string, Kind>): Result<()> {
    if !raw.Object? then Err(CanonicalizationFailed)
    else match EntriesProblem(raw.entries, fields)
      case Some(e) => Err(e)
      case None => Need(forall k | k in fields :: Get(raw, k).Some?, CanonicalizationFailed)
  }

  function TextOf(raw: Value, key: string): string {
    match GetString(raw, key)
    case Some(s) => s
    case None => ""
  }

  function ReadBlock(v: Value): SignatureBlock {
    if IsPositionalSignature(v) then
      SignatureBlock(v.items[0].s, v.items[1].s, if v.items[2].String? then Some(v.items[2].s) else None)
    else SignatureBlock(TextOf(v, "alg"), TextOf(v, "key_id"), GetString(v, "value"))
  }

  function ReadSignature(raw: Value): SignatureBlock {
    match Get(raw, "signature")
    case Some(block) => ReadBlock(block)
    case None => SignatureBlock("", "", None)
  }

  function ReadCommon(raw: Value): Common {
    Common(TextOf(raw, "version"), TextOf(raw, "signer"), TextOf(raw, "on_behalf_of"), TextOf(raw, "audience"),
           TextOf(raw, "nonce"), TextOf(raw, "issued_at"), TextOf(raw, "expires_at"), ReadSignature(raw))
  }

  function ReadBinding(v: Value): Option<AuthorizationBinding> {
    match (GetString(v, "binding_type"), GetString(v, "digest_alg"), GetString(v, "digest_value"))
    case (Some(t), Some(alg), Some(digest)) =>
      if t == BINDING_TYPE_OPAQUE_BYTES then Some(OpaqueBytes(alg, digest))
      else if t == BINDING_TYPE_AUTHZ_SYSTEM_REFERENCE then
        (match (GetString(v, "authorization_system_id"), GetString(v, "reference_scheme_id"), GetString(v, "reference_value"))
         case (Some(sys), Some(scheme), Some(r)) => Some(AuthzSystemReference(sys, scheme, r, alg, digest))
         case _ => None)
      else None
    case _ => None
  }

  // ----- Extraction, draft-01 -----

  function ClassifyRequestError(raw: Value, original: McpsError): McpsError {
    if original != CanonicalizationFailed || !raw.Object? then original
    else if Get(raw, "authorization_hash").None? then AuthorizationHashMissing
    else if Get(raw, "on_behalf_of").None? then OnBehalfOfMissing
    else original
  }

  function ExtractRequest(msg: Value): Result<RequestEnvelope> {
    var raw :- LocateEnvelope(msg, Signing.Request);
    match CheckShape(raw, REQUEST_FIELDS)
    case Err(e) => Err(ClassifyRequestError(raw, e))
    case Ok(_) =>
      if TextOf(raw, "version") != VERSION_DRAFT_01 then Err(UnsupportedVersion)
      else Ok(RequestEnvelope(ReadCommon(raw), TextOf(raw, "authorization_hash")))
  }

  function ReadResponse(raw: Value): ResponseEnvelope {
    ResponseEnvelope(TextOf(raw, "request_hash"), TextOf(raw, "server_signer"), TextOf(raw, "issued_at"), ReadSignature(raw))
  }

  function ExtractResponse(msg: Value): Result<ResponseEnvelope> {
    var raw :- LocateEnvelope(msg, Signing.Response);
    var _ :- CheckShape(raw, RESPONSE_FIELDS);
    Ok(ReadResponse(raw))
  }

  // ----- Extraction, draft-02 -----

  function RequireDraft02Version(raw: Value): Result<()> {
    Need(GetString(raw, "version") == Some(VERSION_DRAFT_02), UnsupportedVersion)
  }

  function ClassifyCanonicalizationId(id: string, allowlist: seq<string>, known: seq<string>): Result<()> {
    if id in allowlist then Ok(())
    else if id in known then Err(CanonicalizationIdNotAllowed)
    else Err(CanonicalizationIdUnknown)
  }

  function CheckCanonicalizationId(raw: Value): Result<()> {
    match GetString(raw, "canonicalization_id")
    case Some(id) => ClassifyCanonicalizationId(id, DRAFT_02_CANONICALIZATION_ALLOWLIST, KNOWN_CANONICALIZATION_SCHEMES)
    case None => Err(CanonicalizationIdMissing)
  }

  const OPAQUE_FIELDS: seq<string> := ["binding_type", "digest_alg", "digest_value"]
  const REFERENCE_ONLY: seq<string> := ["authorization_system_id", "reference_scheme_id", "reference_value"]
  const REFERENCE_FIELDS: seq<string> := ["binding_type", "authorization_system_id", "reference_scheme_id",
                                          "reference_value", "digest_alg", "digest_value"]

  /** Every required member is a non-empty text. */
  predicate NonEmptyTexts(v: Value, keys: seq<string>) {
    forall k | k in keys :: GetString(v, k).Some? && GetString(v, k).value != ""
  }

  function CheckBindingFields(v: Value, required: seq<string>): Result<()>
    requires v.Object?
  {
    if |v.entries| != |required| then Err(AuthorizationBindingMalformed)
    else if !NonEmptyTexts(v, required) then Err(AuthorizationBindingMalformed)
    else Need(GetString(v, "digest_alg") == Some(DIGEST_ALG_SHA256), AuthorizationBindingMalformed)
  }

  function CheckAuthorizationBinding(raw: Value): Result<()> {
    var v :- OkOr(Get(raw, "authorization_binding"), AuthorizationBindingMissing);
    CheckBinding(v)
  }

  function CheckBinding(v: Value): Result<()> {
    if !v.Object? then Err(AuthorizationBindingMalformed)
    else
      var t :- OkOr(GetString(v, "binding_type"), AuthorizationBindingMalformed);
      if t == BINDING_TYPE_OPAQUE_BYTES then
        if exists k | k in REFERENCE_ONLY :: Get(v, k).Some? then Err(AuthorizationBindingAmbiguousBytes)
        else CheckBindingFields(v, OPAQUE_FIELDS)
      else if t == BINDING_TYPE_AUTHZ_SYSTEM_REFERENCE then CheckBindingFields(v, REFERENCE_FIELDS)
      else Err(AuthorizationBindingTypeUnsupported)
  }

  function ClassifyDraft02Error(raw: Value, original: McpsError): McpsError {
    if original == CanonicalizationFailed && raw.Object? && Get(raw, "authorization_binding").None?
    then AuthorizationBindingMissing
    else original
  }

  /** The selectors, read as untrusted before any signature is checked. */
  function CheckSelectors(raw: Value): Result<()> {
    var _ :- RequireDraft02Version(raw);
    var _ :- CheckCanonicalizationId(raw);
    CheckAuthorizationBinding(raw)
  }

  function DeserializeDraft02(raw: Value): Result<Draft02RequestEnvelope> {
    match CheckShape(raw, DRAFT02_REQUEST_FIELDS)
    case Err(e) => Err(ClassifyDraft02Error(raw, e))
    case Ok(_) =>
      match Get(raw, "authorization_binding")
      case None => Err(AuthorizationBindingMissing)
      case Some(v) =>
        var binding :- OkOr(ReadBinding(v), CanonicalizationFailed);
        Ok(Draft02RequestEnvelope(ReadCommon(raw), TextOf(raw, "canonicalization_id"), binding))
  }

  function ExtractDraft02Request(msg: Value): Result<Draft02RequestEnvelope> {
    var raw :- LocateEnvelope(msg, Signing.Request);
    var _ :- CheckSelectors(raw);
    DeserializeDraft02(raw)
  }

  function ExtractDraft02Response(msg: Value): Result<Draft02ResponseEnvelope> {
    var raw :- LocateEnvelope(msg, Signing.Response);
    var _ :- RequireDraft02Version(raw);
    var _ :- CheckCanonicalizationId(raw);
    var _ :- CheckShape(raw, DRAFT02_RESPONSE_FIELDS);
    Ok(Draft02ResponseEnvelope(TextOf(raw, "version"), TextOf(raw, "canonicalization_id"), ReadResponse(raw)))
  }

  // ----- What a shape is -----

  predicate IsSignatureEntry(e: Entry) {
    e.key in SIGNATURE_FIELDS && (e.value.String? || (e.key == "value" && e.value.Null?))
  }

  /** The value is of the kind a field asks for. */
  predicate IsOfKind(v: Value, kind: Kind) {
    match kind
    case Signature =>
      || IsPositionalSignature(v)
      || (&& v.Object?
          && (forall i :: 0 <= i < |v.entries| ==> IsSignatureEntry(v.entries[i]))
          && Get(v, "alg").Some? && Get(v, "key_id").Some?)
    case Binding => ReadBinding(v).Some?
    case Text => v.String?
  }

  predicate IsFieldOf(e: Entry, fields: map<string, Kind>) {
    e.key in fields && IsOfKind(e.value, fields[e.key])
  }

  lemma {:induction false} SignatureEntriesExactly(es: seq<Entry>)
    ensures SignatureEntriesProblem(es).None? <==> forall i :: 0 <= i < |es| ==> IsSignatureEntry(es[i])
  {
    if es != [] {
      SignatureEntriesExactly(es[1..]);
      assert forall i :: 0 < i < |es| ==> es[i] == es[1..][i - 1];
      assert forall i :: 0 <= i < |es[1..]| ==> es[1..][i] == es[i + 1];
    }
  }

  lemma EntryExactly(e: Entry, fields: map<string, Kind>)
    ensures EntryProblem(e, fields).None? <==> IsFieldOf(e, fields)
    ensures EntryProblem(e, fields).Some? && e.key !in fields ==> EntryProblem(e, fields) == Some(UnknownEnvelopeField)
  {
    if e.value.Object? {
      SignatureEntriesExactly(e.value.entries);
    }
  }

  /** The reported problem is that of the first entry that is not a field of its kind. */
  lemma {:induction false} EntriesExactly(es: seq<Entry>, fields: map<string, Kind>)
    ensures EntriesProblem(es, fields).None? <==> forall i :: 0 <= i < |es| ==> IsFieldOf(es[i], fields)
    ensures EntriesProblem(es, fields).Some? ==>
            exists i :: 0 <= i < |es| && EntriesProblem(es, fields) == EntryProblem(es[i], fields) &&
                        forall j :: 0 <= j < i ==> IsFieldOf(es[j], fields)
  {
    if es != [] {
      EntryExactly(es[0], fields);
      EntriesExactly(es[1..], fields);
      assert forall i :: 0 < i < |es| ==> es[i] == es[1..][i - 1];
      assert forall i :: 0 <= i < |es[1..]| ==> es[1..][i] == es[i + 1];
      if EntryProblem(es[0], fields).Some? {
        assert EntriesProblem(es, fields) == EntryProblem(es[0], fields);
      } else if EntriesProblem(es[1..], fields).Some? {
        var i :| 0 <= i < |es[1..]| && EntriesProblem(es[1..], fields) == EntryProblem(es[1..][i], fields) &&
                 forall j :: 0 <= j < i ==> IsFieldOf(es[1..][j], fields);
        assert EntriesProblem(es, fields) == EntryProblem(es[i + 1], fields);
        assert forall j :: 0 <= j < i + 1 ==> IsFieldOf(es[j], fields);
      }
    }
  }

  /** An object has the shape exactly when its members are the fields, all of them and nothing else, of their kinds. */
  lemma ShapeExactly(raw: Value, fields: map<string, Kind>)
    ensures CheckShape(raw, fields).Ok? <==>
            && raw.Object?
            && (forall i :: 0 <= i < |raw.entries| ==> IsFieldOf(raw.entries[i], fields))
            && (forall k :: k in fields ==> Get(raw, k).Some?)
  {
    if raw.Object? {
      EntriesExactly(raw.entries, fields);
    }
  }

  // ----- Both profiles look at the same envelope -----

  lemma ExtractedVersions(msg: Value)
    ensures ExtractRequest(msg).Ok? ==>
            LocateEnvelope(msg, Signing.Request).Ok? &&
            TextOf(LocateEnvelope(msg, Signing.Request).value, "version") == VERSION_DRAFT_01
    ensures ExtractDraft02Request(msg).Ok? ==>
            LocateEnvelope(msg, Signing.Request).Ok? &&
            TextOf(LocateEnvelope(msg, Signing.Request).value, "version") == VERSION_DRAFT_02
  {
  }

  /** An extracted draft-01 envelope is the located object, read field by field. */
  lemma ExtractedRequest(msg: Value)
    requires ExtractRequest(msg).Ok?
    ensures LocateEnvelope(msg, Signing.Request).Ok?
    ensures var raw := LocateEnvelope(msg, Signing.Request).value;
            && CheckShape(raw, REQUEST_FIELDS).Ok?
            && TextOf(raw, "version") == VERSION_DRAFT_01
            && ExtractRequest(msg).value == RequestEnvelope(ReadCommon(raw), TextOf(raw, "authorization_hash"))
  {
  }

  /** The same for draft-02: the selectors pass, and the binding is the one in the object. */
  lemma ExtractedDraft02Request(msg: Value)
    requires ExtractDraft02Request(msg).Ok?
    ensures LocateEnvelope(msg, Signing.Request).Ok?
    ensures var raw := LocateEnvelope(msg, Signing.Request).value;
            var env := ExtractDraft02Request(msg).value;
            && CheckSelectors(raw).Ok? && CheckShape(raw, DRAFT02_REQUEST_FIELDS).Ok?
            && env.common == ReadCommon(raw) && env.canonicalizationId == TextOf(raw, "canonicalization_id")
            && Get(raw, "authorization_binding").Some?
            && ReadBinding(Get(raw, "authorization_binding").value) == Some(env.binding)
  {
    Deserialized(LocateEnvelope(msg, Signing.Request).value);
  }

  lemma Deserialized(raw: Value)
    requires DeserializeDraft02(raw).Ok?
    ensures CheckShape(raw, DRAFT02_REQUEST_FIELDS).Ok?
    ensures var env := DeserializeDraft02(raw).value;
            && env.common == ReadCommon(raw) && env.canonicalizationId == TextOf(raw, "canonicalization_id")
            && Get(raw, "authorization_binding").Some?
            && ReadBinding(Get(raw, "authorization_binding").value) == Some(env.binding)
  {
  }

  // ----- How an absent principal is reported -----

  lemma {:induction false} SignatureEntriesProblems(es: seq<Entry>)
    ensures SignatureEntriesProblem(es).Some? ==>
            SignatureEntriesProblem(es).value in {UnknownEnvelopeField, CanonicalizationFailed}
  {
    if es != [] {
      SignatureEntriesProblems(es[1..]);
    }
  }

  lemma {:induction false} EntriesProblems(es: seq<Entry>, fields: map<string, Kind>)
    ensures EntriesProblem(es, fields).Some? ==>
            EntriesProblem(es, fields).value in {UnknownEnvelopeField, CanonicalizationFailed}
  {
    if es != [] {
      if es[0].value.Object? {
        SignatureEntriesProblems(es[0].value.entries);
      }
      EntriesProblems(es[1..], fields);
    }
  }

  /** A shape fails with an unknown member, when that is the first problem, and otherwise with the generic failure. */
  lemma ShapeErrors(raw: Value, fields: map<string, Kind>)
    ensures CheckShape(raw, fields).Err? ==>
            CheckShape(raw, fields) ==
            if raw.Object? && EntriesProblem(raw.entries, fields) == Some(UnknownEnvelopeField)
            then Err(UnknownEnvelopeField) else Err(CanonicalizationFailed)
  {
    if raw.Object? {
      EntriesProblems(raw.entries, fields);
    }
  }

  /** Without a required member the shape fails. */
  lemma MissingMember(raw: Value, fields: map<string, Kind>, key: string)
    requires key in fields && Get(raw, key).None?
    ensures CheckShape(raw, fields).Err?
  {
  }

  /**
   * Draft-01 reports an absent `on_behalf_of` as such exactly when the envelope is an object
   * with an authorization hash whose first problem, if any, is no unknown member.
   */
  lemma PrincipalMissingExactly(msg: Value)
    ensures ExtractRequest(msg) == Err(OnBehalfOfMissing) <==>
            && LocateEnvelope(msg, Signing.Request).Ok?
            && var raw := LocateEnvelope(msg, Signing.Request).value;
            && raw.Object?
            && Get(raw, "authorization_hash").Some? && Get(raw, "on_behalf_of").None?
            && EntriesProblem(raw.entries, REQUEST_FIELDS) != Some(UnknownEnvelopeField)
  {
    if LocateEnvelope(msg, Signing.Request).Ok? {
      var raw := LocateEnvelope(msg, Signing.Request).value;
      ShapeErrors(raw, REQUEST_FIELDS);
      if Get(raw, "on_behalf_of").None? {
        MissingMember(raw, REQUEST_FIELDS, "on_behalf_of");
      }
    }
  }

  /** Draft-02 has no such report: behind passing selectors an absent principal is the generic failure. */
  lemma Draft02PrincipalMissing(msg: Value)
    requires LocateEnvelope(msg, Signing.Request).Ok?
    requires CheckSelectors(LocateEnvelope(msg, Signing.Request).value).Ok?
    requires Get(LocateEnvelope(msg, Signing.Request).value, "on_behalf_of").None?
    ensures var raw := LocateEnvelope(msg, Signing.Request).value;
            raw.Object? &&
            ExtractDraft02Request(msg) ==
            if EntriesProblem(raw.entries, DRAFT02_REQUEST_FIELDS) == Some(UnknownEnvelopeField)
            then Err(UnknownEnvelopeField) else Err(CanonicalizationFailed)
  {
    var raw := LocateEnvelope(msg, Signing.Request).value;
    ShapeErrors(raw, DRAFT02_REQUEST_FIELDS);
    MissingMember(raw, DRAFT02_REQUEST_FIELDS, "on_behalf_of");
    assert Get(raw, "authorization_binding").Some?;
  }
}
