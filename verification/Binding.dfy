/**
 * What a signature binds. Signatures are taken as ideal: a key verifies only the
 * preimages of objects its holder signed.
 */
module Binding {
  import opened Outcome
  import opened Message
  import opened Envelope
  import opened Pipeline
  import opened ResponseVerification
  import opened Verification
  import Jcs
  import Replay
  import Signing

  /** The key verifies a preimage only if its holder signed an object, as a request or a response, that has it. */
  ghost predicate Unforgeable(w: World, key: Key, signed: (Value, Signing.Location) -> bool) {
    forall preimage, signature :: w.verifies(key, preimage, signature) ==>
      exists o, l :: signed(o, l) && Signing.SigningPreimage(o, l) == Ok(preimage)
  }

  /** Both objects have the same preimage, so they agree wherever both preimages reach. */
  ghost predicate SameSignedContent(a: Value, la: Signing.Location, b: Value, lb: Signing.Location) {
    && Signing.SignedPart(a, la).Some? && Signing.SignedPart(b, lb).Some?
    && Jcs.SameUpToOrder(Signing.SignedPart(a, la).value, Signing.SignedPart(b, lb).value)
    && forall path :: Signing.Bound(la, path) && Signing.Bound(lb, path) ==>
         Signing.SameOption(Signing.Reading(a, path), Signing.Reading(b, path))
  }

  lemma SamePreimageSameContent(a: Value, la: Signing.Location, b: Value, lb: Signing.Location)
    requires Signing.SigningPreimage(a, la).Ok? && Signing.SigningPreimage(a, la) == Signing.SigningPreimage(b, lb)
    ensures SameSignedContent(a, la, b, lb)
  {
    Signing.PreimagesAgree(a, la, b, lb);
    forall path | Signing.Bound(la, path) && Signing.Bound(lb, path)
      ensures Signing.SameOption(Signing.Reading(a, path), Signing.Reading(b, path))
    {
      Signing.EveryOtherPathIsBound(a, la, b, lb, path);
    }
  }

  // ----- Paths the preimage covers -----

  function EnvelopePath(loc: Signing.Location, field: string): seq<string> {
    [Signing.ContainerKey(loc), "_meta", Signing.MetaKey(loc), field]
  }

  /** Inside the envelope, and not the signature value or the block around it. */
  predicate InEnvelope(loc: Signing.Location, path: seq<string>) {
    && |path| >= 4 && path[..3] == [Signing.ContainerKey(loc), "_meta", Signing.MetaKey(loc)]
    && (path[3] != "signature" || (|path| >= 5 && path[4] != "value"))
  }

  /** Everything in the envelope but the signature value is bound. */
  lemma EnvelopeBound(loc: Signing.Location, path: seq<string>)
    requires InEnvelope(loc, path)
    ensures Signing.Bound(loc, path)
  {
    assert path[0] == path[..3][0] && path[1] == path[..3][1] && path[2] == path[..3][2];
    forall q | q in Signing.ExclusionPaths(loc) ensures Apart(path, q) {
      ExclusionShape(loc, q);
    }
  }

  /** Excluded are one value under the envelope's signature, and keys beside the envelope in `_meta`. */
  lemma ExclusionShape(loc: Signing.Location, q: seq<string>)
    requires q in Signing.ExclusionPaths(loc)
    ensures |q| >= 3 && q[0] == Signing.ContainerKey(loc) && q[1] == "_meta"
    ensures if |q| == 3 then q[2] != Signing.MetaKey(loc)
            else q == EnvelopePath(loc, "signature") + ["value"]
  {
    var keys := Signing.OBSERVABILITY_META_KEYS;
    var traces := Signing.TracePaths(loc, keys);
    if q in traces {
      var i :| 0 <= i < |traces| && traces[i] == q;
      assert q == Signing.TracePath(loc, keys[i]);
    }
  }

  /** Everything outside the container's `_meta`, wherever trace keys may occur in it. */
  lemma OutsideMetaBound(loc: Signing.Location, path: seq<string>)
    requires path != []
    requires path[0] != Signing.ContainerKey(loc) || (|path| >= 2 && path[1] != "_meta")
    ensures Signing.Bound(loc, path)
  {
    forall q | q in Signing.ExclusionPaths(loc) ensures Apart(path, q) {
      ExclusionShape(loc, q);
    }
  }

  /** An envelope is bound by a signature over the other location as well: it lies outside that `_meta`. */
  lemma EnvelopeBoundAcross(la: Signing.Location, lb: Signing.Location, path: seq<string>)
    requires InEnvelope(la, path)
    ensures Signing.Bound(la, path) && Signing.Bound(lb, path)
  {
    EnvelopeBound(la, path);
    if la != lb {
      assert path[0] == path[..3][0];
      OutsideMetaBound(lb, path);
    }
  }

  // ----- Text fields -----

  predicate TextAt(v: Value, path: seq<string>, s: string) {
    GetPath(v, path) == Some(String(s))
  }

  /** A text in the envelope of one object is in the other, wherever that one was signed. */
  lemma TextCarried(a: Value, la: Signing.Location, b: Value, lb: Signing.Location, path: seq<string>, s: string)
    requires SameSignedContent(a, la, b, lb) && InEnvelope(la, path) && TextAt(a, path, s)
    ensures TextAt(b, path, s)
  {
    EnvelopeBoundAcross(la, lb, path);
    var x, y := Signing.Reading(a, path), Signing.Reading(b, path);
    assert Signing.SameOption(x, y);
    assert x == Some(Jcs.String(s));
    assert y == Some(Jcs.String(s));
    TextRead(GetPath(b, path).value, |path|, s);
  }

  lemma TextRead(v: Value, depth: nat, s: string)
    requires ToJcs(v, depth) == Some(Jcs.String(s))
    ensures v == String(s)
  {
  }

  lemma {:induction false} EntriesAreTyped(es: seq<Entry>, fields: map<string, Kind>, key: string)
    requires EntriesProblem(es, fields).None? && Find(es, key).Some?
    ensures EntryProblem(Entry(key, Find(es, key).value), fields).None?
  {
    if es[0].key != key {
      EntriesAreTyped(es[1..], fields, key);
    }
  }

  lemma TextPresent(raw: Value, fields: map<string, Kind>, key: string)
    requires CheckShape(raw, fields).Ok? && key in fields && fields[key] == Text
    ensures Get(raw, key) == Some(String(TextOf(raw, key)))
  {
    EntriesAreTyped(raw.entries, fields, key);
  }

  lemma EnvelopeField(value: Value, loc: Signing.Location, field: string)
    requires LocateEnvelope(value, loc).Ok?
    ensures GetPath(value, EnvelopePath(loc, field)) == Get(LocateEnvelope(value, loc).value, field)
  {
    var (c, m) := (Signing.ContainerKey(loc), Signing.MetaKey(loc));
    var container := Get(value, c).value;
    var meta := Get(container, "_meta").value;
    assert EnvelopePath(loc, field) == [c] + (["_meta"] + ([m] + ([field] + [])));
    PathStep(value, c, ["_meta"] + ([m] + ([field] + [])));
    PathStep(container, "_meta", [m] + ([field] + []));
    PathStep(meta, m, [field] + []);
    PathStep(Get(meta, m).value, field, []);
  }

  /** The text an envelope field holds. */
  predicate FieldIs(v: Value, loc: Signing.Location, field: string, s: string) {
    TextAt(v, EnvelopePath(loc, field), s)
  }

  predicate RequestFieldsAre(v: Value, env: Common) {
    && FieldIs(v, Signing.Request, "version", env.version)
    && FieldIs(v, Signing.Request, "signer", env.signer)
    && FieldIs(v, Signing.Request, "on_behalf_of", env.onBehalfOf)
    && FieldIs(v, Signing.Request, "audience", env.audience)
    && FieldIs(v, Signing.Request, "nonce", env.nonce)
    && FieldIs(v, Signing.Request, "issued_at", env.issuedAt)
    && FieldIs(v, Signing.Request, "expires_at", env.expiresAt)
  }

  function FieldsOf(p: Profile): map<string, Kind> {
    match p
    case Draft01 => REQUEST_FIELDS
    case Draft02 => DRAFT02_REQUEST_FIELDS
  }

  lemma ClaimsCommon(p: Profile, value: Value)
    requires Claims(p, value).Ok?
    ensures LocateEnvelope(value, Signing.Request).Ok?
    ensures var raw := LocateEnvelope(value, Signing.Request).value;
            CheckShape(raw, FieldsOf(p)).Ok? && Claims(p, value).value.0 == ReadCommon(raw)
  {
    match p
    case Draft01 => ExtractedRequest(value);
    case Draft02 => ExtractedDraft02Request(value);
  }

  lemma FieldPresent(value: Value, loc: Signing.Location, fields: map<string, Kind>, field: string)
    requires LocateEnvelope(value, loc).Ok? && CheckShape(LocateEnvelope(value, loc).value, fields).Ok?
    requires field in fields && fields[field] == Text
    ensures FieldIs(value, loc, field, TextOf(LocateEnvelope(value, loc).value, field))
  {
    EnvelopeField(value, loc, field);
    TextPresent(LocateEnvelope(value, loc).value, fields, field);
  }

  const COMMON_TEXTS: seq<string> :=
    ["version", "signer", "on_behalf_of", "audience", "nonce", "issued_at", "expires_at"]

  predicate HaveTexts(fields: map<string, Kind>, names: seq<string>) {
    forall i :: 0 <= i < |names| ==> names[i] in fields && fields[names[i]] == Text
  }

  lemma FieldsPresent(value: Value, fields: map<string, Kind>)
    requires LocateEnvelope(value, Signing.Request).Ok?
    requires CheckShape(LocateEnvelope(value, Signing.Request).value, fields).Ok?
    requires HaveTexts(fields, COMMON_TEXTS)
    ensures RequestFieldsAre(value, ReadCommon(LocateEnvelope(value, Signing.Request).value))
  {
    var names := COMMON_TEXTS;
    FieldPresent(value, Signing.Request, fields, names[0]);
    FieldPresent(value, Signing.Request, fields, names[1]);
    FieldPresent(value, Signing.Request, fields, names[2]);
    FieldPresent(value, Signing.Request, fields, names[3]);
    FieldPresent(value, Signing.Request, fields, names[4]);
    FieldPresent(value, Signing.Request, fields, names[5]);
    FieldPresent(value, Signing.Request, fields, names[6]);
  }

  lemma CommonTextsHad(p: Profile)
    ensures HaveTexts(FieldsOf(p), COMMON_TEXTS)
  {
  }

  lemma ClaimedFields(p: Profile, value: Value)
    requires Claims(p, value).Ok?
    ensures RequestFieldsAre(value, Claims(p, value).value.0)
  {
    ClaimsCommon(p, value);
    CommonTextsHad(p);
    FieldsPresent(value, FieldsOf(p));
  }

  lemma FieldCarried(a: Value, la: Signing.Location, b: Value, lb: Signing.Location, field: string, s: string)
    requires SameSignedContent(a, la, b, lb) && FieldIs(a, la, field, s) && field != "signature"
    ensures FieldIs(b, la, field, s)
  {
    TextCarried(a, la, b, lb, EnvelopePath(la, field), s);
  }

  lemma FieldsCarried(a: Value, b: Value, lb: Signing.Location, env: Common)
    requires SameSignedContent(a, Signing.Request, b, lb) && RequestFieldsAre(a, env)
    ensures RequestFieldsAre(b, env)
  {
    FieldCarried(a, Signing.Request, b, lb, "version", env.version);
    FieldCarried(a, Signing.Request, b, lb, "signer", env.signer);
    FieldCarried(a, Signing.Request, b, lb, "on_behalf_of", env.onBehalfOf);
    FieldCarried(a, Signing.Request, b, lb, "audience", env.audience);
    FieldCarried(a, Signing.Request, b, lb, "nonce", env.nonce);
    FieldCarried(a, Signing.Request, b, lb, "issued_at", env.issuedAt);
    FieldCarried(a, Signing.Request, b, lb, "expires_at", env.expiresAt);
  }

  // ----- The signature block's own texts -----

  /** The path of a member one below a path that exists. */
  lemma {:induction false} PathBelow(v: Value, path: seq<string>, key: string)
    ensures GetPath(v, path + [key]) ==
            match GetPath(v, path) case None => None case Some(x) => Get(x, key)
    decreases path
  {
    if path == [] {
      assert path + [key] == [key] + [];
      PathStep(v, key, []);
    } else {
      assert (path + [key])[1..] == path[1..] + [key];
      if Get(v, path[0]).Some? {
        PathBelow(Get(v, path[0]).value, path[1..], key);
      }
    }
  }

  /** The algorithm and key id the block names. */
  predicate BlockIs(v: Value, loc: Signing.Location, alg: string, keyId: string) {
    && TextAt(v, EnvelopePath(loc, "signature") + ["alg"], alg)
    && TextAt(v, EnvelopePath(loc, "signature") + ["key_id"], keyId)
  }

  lemma {:induction false} FoundSignatureEntry(es: seq<Entry>, key: string)
    requires SignatureEntriesProblem(es).None? && Find(es, key).Some?
    ensures IsSignatureEntry(Entry(key, Find(es, key).value))
  {
    if es[0].key != key {
      FoundSignatureEntry(es[1..], key);
    }
  }

  lemma BlockTexts(block: Value)
    requires block.Object? && SignatureProblem(block).None?
    ensures Get(block, "alg") == Some(String(ReadBlock(block).alg))
    ensures Get(block, "key_id") == Some(String(ReadBlock(block).keyId))
  {
    FoundSignatureEntry(block.entries, "alg");
    FoundSignatureEntry(block.entries, "key_id");
  }

  /** A message that has a preimage names in its block what the verifier read there. */
  lemma BlockPresent(value: Value, loc: Signing.Location, fields: map<string, Kind>)
    requires LocateEnvelope(value, loc).Ok? && CheckShape(LocateEnvelope(value, loc).value, fields).Ok?
    requires "signature" in fields && fields["signature"] == Kind.Signature
    requires Signing.SigningPreimage(value, loc).Ok?
    ensures var block := ReadSignature(LocateEnvelope(value, loc).value); BlockIs(value, loc, block.alg, block.keyId)
  {
    var raw := LocateEnvelope(value, loc).value;
    var path := EnvelopePath(loc, "signature");
    EnvelopeField(value, loc, "signature");
    Signing.PreimageOfSignedPart(value, loc);
    assert path == Signing.SignaturePath(loc);
    EntriesAreTyped(raw.entries, fields, "signature");
    BlockTexts(Get(raw, "signature").value);
    PathBelow(value, path, "alg");
    PathBelow(value, path, "key_id");
  }

  lemma BlockCarried(a: Value, la: Signing.Location, b: Value, lb: Signing.Location, alg: string, keyId: string)
    requires SameSignedContent(a, la, b, lb) && BlockIs(a, la, alg, keyId)
    ensures BlockIs(b, la, alg, keyId)
  {
    var path := EnvelopePath(la, "signature");
    assert (path + ["alg"])[..3] == path[..3] && (path + ["key_id"])[..3] == path[..3];
    TextCarried(a, la, b, lb, path + ["alg"], alg);
    TextCarried(a, la, b, lb, path + ["key_id"], keyId);
  }

  // ----- The authorization -----

  function BindingPath(): seq<string> {
    EnvelopePath(Signing.Request, "authorization_binding")
  }

  /** The object's authorization binding reads as this one. */
  predicate BindingIs(v: Value, b: AuthorizationBinding) {
    GetPath(v, BindingPath()).Some? && ReadBinding(GetPath(v, BindingPath()).value) == Some(b)
  }

  /** One text of the binding is in the other object's binding. */
  lemma BindingTextCarried(a: Value, b: Value, lb: Signing.Location, key: string)
    requires SameSignedContent(a, Signing.Request, b, lb)
    requires GetPath(a, BindingPath()).Some? && GetString(GetPath(a, BindingPath()).value, key).Some?
    ensures GetPath(b, BindingPath()).Some?
    ensures GetString(GetPath(b, BindingPath()).value, key) == GetString(GetPath(a, BindingPath()).value, key)
  {
    var path := BindingPath();
    PathBelow(a, path, key);
    PathBelow(b, path, key);
    assert (path + [key])[..3] == path[..3];
    TextCarried(a, Signing.Request, b, lb, path + [key], GetString(GetPath(a, path).value, key).value);
  }

  lemma BindingCarried(a: Value, b: Value, lb: Signing.Location, binding: AuthorizationBinding)
    requires SameSignedContent(a, Signing.Request, b, lb) && BindingIs(a, binding)
    ensures BindingIs(b, binding)
  {
    BindingTextCarried(a, b, lb, "binding_type");
    BindingTextCarried(a, b, lb, "digest_alg");
    BindingTextCarried(a, b, lb, "digest_value");
    if binding.AuthzSystemReference? {
      BindingTextCarried(a, b, lb, "authorization_system_id");
      BindingTextCarried(a, b, lb, "reference_scheme_id");
      BindingTextCarried(a, b, lb, "reference_value");
    }
  }

  /** The object states this authorization, in the way of its profile. */
  predicate AuthorizationIs(v: Value, authorization: Authorization, canonicalizationId: Option<string>) {
    match authorization
    case Draft01Hash(hash) => FieldIs(v, Signing.Request, "authorization_hash", hash) && canonicalizationId.None?
    case Draft02Binding(binding) =>
      && BindingIs(v, binding)
      && canonicalizationId.Some? && FieldIs(v, Signing.Request, "canonicalization_id", canonicalizationId.value)
  }

  lemma AuthorizationCarried(a: Value, b: Value, lb: Signing.Location, authorization: Authorization, id: Option<string>)
    requires SameSignedContent(a, Signing.Request, b, lb) && AuthorizationIs(a, authorization, id)
    ensures AuthorizationIs(b, authorization, id)
  {
    match authorization
    case Draft01Hash(hash) => FieldCarried(a, Signing.Request, b, lb, "authorization_hash", hash);
    case Draft02Binding(binding) =>
      BindingCarried(a, b, lb, binding);
      FieldCarried(a, Signing.Request, b, lb, "canonicalization_id", id.value);
  }

  lemma HashPresent(value: Value)
    requires ExtractRequest(value).Ok?
    ensures FieldIs(value, Signing.Request, "authorization_hash", ExtractRequest(value).value.authorizationHash)
  {
    ExtractedRequest(value);
    FieldPresent(value, Signing.Request, REQUEST_FIELDS, "authorization_hash");
  }

  lemma BindingPresent(value: Value)
    requires ExtractDraft02Request(value).Ok?
    ensures BindingIs(value, ExtractDraft02Request(value).value.binding)
    ensures FieldIs(value, Signing.Request, "canonicalization_id", ExtractDraft02Request(value).value.canonicalizationId)
  {
    ExtractedDraft02Request(value);
    EnvelopeField(value, Signing.Request, "authorization_binding");
    FieldPresent(value, Signing.Request, DRAFT02_REQUEST_FIELDS, "canonicalization_id");
  }

  lemma AuthorizationPresent(p: Profile, value: Value)
    requires Claims(p, value).Ok?
    ensures var (_, authorization, id) := Claims(p, value).value; AuthorizationIs(value, authorization, id)
  {
    match p
    case Draft01 => HashPresent(value);
    case Draft02 => BindingPresent(value);
  }

  // ----- Soundness -----

  /** The object states, under `params`, everything the verifier returned about the request. */
  predicate StatesRequest(v: Value, p: Profile, r: VerifiedRequest) {
    && FieldIs(v, Signing.Request, "version", if p == Draft01 then VERSION_DRAFT_01 else VERSION_DRAFT_02)
    && FieldIs(v, Signing.Request, "signer", r.signer)
    && FieldIs(v, Signing.Request, "on_behalf_of", r.onBehalfOf)
    && FieldIs(v, Signing.Request, "audience", r.audience)
    && FieldIs(v, Signing.Request, "nonce", r.nonce)
    && FieldIs(v, Signing.Request, "issued_at", r.issuedAt)
    && FieldIs(v, Signing.Request, "expires_at", r.expiresAt)
    && BlockIs(v, Signing.Request, SIG_ALG_ED25519, r.keyId)
    && AuthorizationIs(v, r.authorization, r.canonicalizationId)
  }

  /** What the claims of a message with a preimage state, the message and every object with its content state. */
  lemma ClaimsCarried(p: Profile, value: Value, o: Value, l: Signing.Location)
    requires Claims(p, value).Ok? && Signing.SigningPreimage(value, Signing.Request).Ok?
    requires SameSignedContent(value, Signing.Request, o, l)
    ensures var (env, authorization, id) := Claims(p, value).value;
            && RequestFieldsAre(o, env)
            && BlockIs(o, Signing.Request, env.signature.alg, env.signature.keyId)
            && AuthorizationIs(o, authorization, id)
  {
    var (env, authorization, id) := Claims(p, value).value;
    ClaimedFields(p, value);
    FieldsCarried(value, o, l, env);
    ClaimsCommon(p, value);
    SignatureFieldHad(p);
    BlockPresent(value, Signing.Request, FieldsOf(p));
    BlockCarried(value, Signing.Request, o, l, env.signature.alg, env.signature.keyId);
    AuthorizationPresent(p, value);
    AuthorizationCarried(value, o, l, authorization, id);
  }

  lemma SignatureFieldHad(p: Profile)
    ensures "signature" in FieldsOf(p) && FieldsOf(p)["signature"] == Kind.Signature
  {
  }

  lemma ClaimedVersion(p: Profile, value: Value)
    requires Claims(p, value).Ok?
    ensures Claims(p, value).value.0.version == if p == Draft01 then VERSION_DRAFT_01 else VERSION_DRAFT_02
  {
    ClaimsCommon(p, value);
    ExtractedVersions(value);
  }

  /**
   * Every accepted request was signed: under ideal signatures the holder of the resolved key
   * signed an object that agrees with the received message on every bound path, states under
   * `params` everything the verifier returned, and has the preimage of the returned hash. That
   * holds even if the object was signed as a response: it then carries the request envelope too.
   */
  lemma AcceptedWasSigned(w: World, p: Profile, raw: string, resolver: Resolver, cache: Replay.Cache, config: Config,
                          now: int, key: Key, signed: (Value, Signing.Location) -> bool)
    returns (o: Value, l: Signing.Location)
    requires IsI64(now) && IsI64(config.maxClockSkew)
    requires VerifyUnder(w, p, raw, resolver, cache, config, now).0.Ok?
    requires var r := VerifyUnder(w, p, raw, resolver, cache, config, now).0.value;
             resolver(r.signer, r.keyId) == Resolved(key)
    requires Unforgeable(w, key, signed)
    ensures signed(o, l)
    ensures w.decode(raw).Some? && SameSignedContent(w.decode(raw).value, Signing.Request, o, l)
    ensures var r := VerifyUnder(w, p, raw, resolver, cache, config, now).0.value;
            && StatesRequest(o, p, r)
            && Signing.SigningPreimage(o, l).Ok? && w.hash(Signing.SigningPreimage(o, l).value) == r.requestHash
  {
    AcceptedRecord(w, p, raw, resolver, cache, config, now);
    var value := w.decode(raw).value;
    o, l := Signer(w, value, Claims(p, value).value.0, resolver, key, signed);
    SamePreimageSameContent(value, Signing.Request, o, l);
    ClaimsCarried(p, value, o, l);
    ClaimedVersion(p, value);
  }

  lemma Signer(w: World, value: Value, env: Common, resolver: Resolver, key: Key, signed: (Value, Signing.Location) -> bool)
    returns (o: Value, l: Signing.Location)
    requires SignedBy(w, value, env, resolver) && resolver(env.signer, env.signature.keyId) == Resolved(key)
    requires Unforgeable(w, key, signed)
    ensures signed(o, l) && Signing.SigningPreimage(o, l) == Signing.SigningPreimage(value, Signing.Request)
    ensures Signing.SigningPreimage(value, Signing.Request).Ok?
  {
    var preimage := Signing.SigningPreimage(value, Signing.Request).value;
    o, l :| signed(o, l) && Signing.SigningPreimage(o, l) == Ok(preimage);
  }

  // ----- Responses -----

  lemma ResponseFacts(w: World, raw: string, resolver: Resolver, expectedHash: string)
    requires VerifyResponse(w, raw, resolver, expectedHash).Ok?
    ensures w.decode(raw).Some? && LocateEnvelope(w.decode(raw).value, Signing.Response).Ok?
    ensures var value := w.decode(raw).value;
            var envelope := LocateEnvelope(value, Signing.Response).value;
            && CheckShape(envelope, RESPONSE_FIELDS).Ok?
            && ResponseSignedBy(w, value, ReadResponse(envelope), resolver)
            && VerifyResponse(w, raw, resolver, expectedHash).value ==
               VerifiedResponse(TextOf(envelope, "server_signer"), ReadSignature(envelope).keyId, expectedHash)
            && TextOf(envelope, "request_hash") == expectedHash
  {
    AdmissibleExactly(w, raw);
  }

  lemma ResponseFactsDraft02(w: World, raw: string, resolver: Resolver, expectedHash: string, id: string)
    requires VerifyResponseDraft02(w, raw, resolver, expectedHash, id).Ok?
    ensures w.decode(raw).Some? && LocateEnvelope(w.decode(raw).value, Signing.Response).Ok?
    ensures var value := w.decode(raw).value;
            var envelope := LocateEnvelope(value, Signing.Response).value;
            && CheckShape(envelope, DRAFT02_RESPONSE_FIELDS).Ok?
            && ResponseSignedBy(w, value, ReadResponse(envelope), resolver)
            && VerifyResponseDraft02(w, raw, resolver, expectedHash, id).value ==
               VerifiedResponse(TextOf(envelope, "server_signer"), ReadSignature(envelope).keyId, expectedHash)
            && TextOf(envelope, "request_hash") == expectedHash
            && TextOf(envelope, "canonicalization_id") == id
  {
    AdmissibleExactly(w, raw);
  }

  lemma ResponseSigner(w: World, value: Value, env: ResponseEnvelope, resolver: Resolver, key: Key,
                       signed: (Value, Signing.Location) -> bool)
    returns (o: Value, l: Signing.Location)
    requires ResponseSignedBy(w, value, env, resolver) && resolver(env.serverSigner, env.signature.keyId) == Resolved(key)
    requires Unforgeable(w, key, signed)
    ensures signed(o, l) && SameSignedContent(value, Signing.Response, o, l)
  {
    var preimage := Signing.SigningPreimage(value, Signing.Response).value;
    o, l :| signed(o, l) && Signing.SigningPreimage(o, l) == Ok(preimage);
    SamePreimageSameContent(value, Signing.Response, o, l);
  }

  /** The object states, under `result`, everything the verifier returned about the response. */
  predicate StatesResponse(v: Value, r: VerifiedResponse) {
    && FieldIs(v, Signing.Response, "request_hash", r.requestHash)
    && FieldIs(v, Signing.Response, "server_signer", r.serverSigner)
    && BlockIs(v, Signing.Response, SIG_ALG_ED25519, r.keyId)
  }

  lemma ResponseCarried(value: Value, fields: map<string, Kind>, o: Value, l: Signing.Location)
    requires LocateEnvelope(value, Signing.Response).Ok? && CheckShape(LocateEnvelope(value, Signing.Response).value, fields).Ok?
    requires HaveTexts(fields, ["request_hash", "server_signer"])
    requires "signature" in fields && fields["signature"] == Kind.Signature
    requires Signing.SigningPreimage(value, Signing.Response).Ok? && SameSignedContent(value, Signing.Response, o, l)
    ensures var raw := LocateEnvelope(value, Signing.Response).value;
            && FieldIs(o, Signing.Response, "request_hash", TextOf(raw, "request_hash"))
            && FieldIs(o, Signing.Response, "server_signer", TextOf(raw, "server_signer"))
            && BlockIs(o, Signing.Response, ReadSignature(raw).alg, ReadSignature(raw).keyId)
  {
    var raw := LocateEnvelope(value, Signing.Response).value;
    var names := ["request_hash", "server_signer"];
    FieldPresent(value, Signing.Response, fields, names[0]);
    FieldPresent(value, Signing.Response, fields, names[1]);
    FieldCarried(value, Signing.Response, o, l, names[0], TextOf(raw, names[0]));
    FieldCarried(value, Signing.Response, o, l, names[1], TextOf(raw, names[1]));
    BlockPresent(value, Signing.Response, fields);
    BlockCarried(value, Signing.Response, o, l, ReadSignature(raw).alg, ReadSignature(raw).keyId);
  }

  lemma ResponseKinds(fields: map<string, Kind>)
    requires fields == RESPONSE_FIELDS || fields == DRAFT02_RESPONSE_FIELDS
    ensures HaveTexts(fields, ["request_hash", "server_signer"])
    ensures "signature" in fields && fields["signature"] == Kind.Signature
  {
  }

  lemma SchemeCarried(value: Value, o: Value, l: Signing.Location)
    requires LocateEnvelope(value, Signing.Response).Ok?
    requires CheckShape(LocateEnvelope(value, Signing.Response).value, DRAFT02_RESPONSE_FIELDS).Ok?
    requires SameSignedContent(value, Signing.Response, o, l)
    ensures FieldIs(o, Signing.Response, "canonicalization_id",
                    TextOf(LocateEnvelope(value, Signing.Response).value, "canonicalization_id"))
  {
    var raw := LocateEnvelope(value, Signing.Response).value;
    FieldPresent(value, Signing.Response, DRAFT02_RESPONSE_FIELDS, "canonicalization_id");
    FieldCarried(value, Signing.Response, o, l, "canonicalization_id", TextOf(raw, "canonicalization_id"));
  }

  /** The accepted response was signed by its server, over the hash of the request it answers. */
  lemma AcceptedResponseWasSigned(w: World, raw: string, resolver: Resolver, expectedHash: string, key: Key,
                                  signed: (Value, Signing.Location) -> bool)
    returns (o: Value, l: Signing.Location)
    requires VerifyResponse(w, raw, resolver, expectedHash).Ok?
    requires var r := VerifyResponse(w, raw, resolver, expectedHash).value;
             resolver(r.serverSigner, r.keyId) == Resolved(key)
    requires Unforgeable(w, key, signed)
    ensures signed(o, l) && VerifyResponse(w, raw, resolver, expectedHash).value.requestHash == expectedHash
    ensures StatesResponse(o, VerifyResponse(w, raw, resolver, expectedHash).value)
    ensures w.decode(raw).Some? && SameSignedContent(w.decode(raw).value, Signing.Response, o, l)
  {
    ResponseFacts(w, raw, resolver, expectedHash);
    var value := w.decode(raw).value;
    var envelope := LocateEnvelope(value, Signing.Response).value;
    o, l := ResponseSigner(w, value, ReadResponse(envelope), resolver, key, signed);
    ResponseKinds(RESPONSE_FIELDS);
    ResponseCarried(value, RESPONSE_FIELDS, o, l);
  }

  /** The draft-02 response moreover states the canonicalization the request was verified under. */
  lemma AcceptedDraft02ResponseWasSigned(w: World, raw: string, resolver: Resolver, expectedHash: string, id: string,
                                         key: Key, signed: (Value, Signing.Location) -> bool)
    returns (o: Value, l: Signing.Location)
    requires VerifyResponseDraft02(w, raw, resolver, expectedHash, id).Ok?
    requires var r := VerifyResponseDraft02(w, raw, resolver, expectedHash, id).value;
             resolver(r.serverSigner, r.keyId) == Resolved(key)
    requires Unforgeable(w, key, signed)
    ensures signed(o, l) && VerifyResponseDraft02(w, raw, resolver, expectedHash, id).value.requestHash == expectedHash
    ensures StatesResponse(o, VerifyResponseDraft02(w, raw, resolver, expectedHash, id).value)
    ensures FieldIs(o, Signing.Response, "canonicalization_id", id)
    ensures w.decode(raw).Some? && SameSignedContent(w.decode(raw).value, Signing.Response, o, l)
  {
    ResponseFactsDraft02(w, raw, resolver, expectedHash, id);
    var value := w.decode(raw).value;
    var envelope := LocateEnvelope(value, Signing.Response).value;
    o, l := ResponseSigner(w, value, ReadResponse(envelope), resolver, key, signed);
    ResponseKinds(DRAFT02_RESPONSE_FIELDS);
    ResponseCarried(value, DRAFT02_RESPONSE_FIELDS, o, l);
    SchemeCarried(value, o, l);
  }

  /**
   * A response answers one request: with no hash collision between their preimages, two
   * accepted requests with the hash the response was checked against have the same content.
   */
  lemma ResponseAnswersOneRequest(w: World, a: Value, b: Value, hash: string)
    requires RequestHash(w, a) == Ok(hash) && RequestHash(w, b) == Ok(hash)
    requires forall x, y :: w.hash(x) == w.hash(y) ==> x == y
    ensures SameSignedContent(a, Signing.Request, b, Signing.Request)
  {
    SamePreimageSameContent(a, Signing.Request, b, Signing.Request);
  }
}
