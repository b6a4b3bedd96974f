/** Building a signed draft-02 request, and when the verifier takes what was built. */
module Request {
  import opened Outcome
  import opened Message
  import opened Envelope
  import opened Pipeline
  import Signing

  datatype Inputs = Inputs(
    signer: string, keyId: string, onBehalfOf: string, audience: string, binding: AuthorizationBinding,
    nonce: string, issuedAt: string, expiresAt: string, canonicalizationId: string)

  datatype SignedRequest = SignedRequest(request: Value, requestHash: string, wire: string)

  function CheckSchemeId(id: string): Result<()> {
    if id == "" then Err(CanonicalizationIdMissing)
    else Need(id in DRAFT_02_CANONICALIZATION_ALLOWLIST, CanonicalizationIdNotAllowed)
  }

  function EncodeBinding(b: AuthorizationBinding): Value {
    match b
    case OpaqueBytes(alg, digest) =>
      Object([Entry("binding_type", String(BINDING_TYPE_OPAQUE_BYTES)),
              Entry("digest_alg", String(alg)), Entry("digest_value", String(digest))])
    case AuthzSystemReference(sys, scheme, reference, alg, digest) =>
      Object([Entry("binding_type", String(BINDING_TYPE_AUTHZ_SYSTEM_REFERENCE)),
              Entry("authorization_system_id", String(sys)), Entry("reference_scheme_id", String(scheme)),
              Entry("reference_value", String(reference)),
              Entry("digest_alg", String(alg)), Entry("digest_value", String(digest))])
  }

  function Block(keyId: string): Value {
    Object([Entry("alg", String(SIG_ALG_ED25519)), Entry("key_id", String(keyId))])
  }

  const ENVELOPE_NAMES: seq<string> :=
    ["version", "canonicalization_id", "signer", "on_behalf_of", "audience",
     "authorization_binding", "nonce", "issued_at", "expires_at", "signature"]

  function EnvelopeEntries(inputs: Inputs, signature: Value): seq<Entry> {
    [Entry(ENVELOPE_NAMES[0], String(VERSION_DRAFT_02)),
     Entry(ENVELOPE_NAMES[1], String(inputs.canonicalizationId)),
     Entry(ENVELOPE_NAMES[2], String(inputs.signer)),
     Entry(ENVELOPE_NAMES[3], String(inputs.onBehalfOf)),
     Entry(ENVELOPE_NAMES[4], String(inputs.audience)),
     Entry(ENVELOPE_NAMES[5], EncodeBinding(inputs.binding)),
     Entry(ENVELOPE_NAMES[6], String(inputs.nonce)),
     Entry(ENVELOPE_NAMES[7], String(inputs.issuedAt)),
     Entry(ENVELOPE_NAMES[8], String(inputs.expiresAt)),
     Entry(ENVELOPE_NAMES[9], signature)]
  }

  /** The caller's `_meta` entries, or none when it is absent or not an object. */
  function MetaEntries(params: seq<Entry>): seq<Entry> {
    match Find(params, "_meta")
    case Some(Object(es)) => es
    case _ => []
  }

  function ParamsWith(params: seq<Entry>, envelope: Value): seq<Entry> {
    Put(Remove(params, "_meta"), "_meta", Object(Put(MetaEntries(params), Signing.REQUEST_META_KEY, envelope)))
  }

  function Assemble(id: Value, rpcMethod: string, params: Value): Value {
    Object([Entry("id", id), Entry("jsonrpc", String("2.0")), Entry("method", String(rpcMethod)), Entry("params", params)])
  }

  /** The request with its envelope, around a signature block. */
  function Author(id: Value, rpcMethod: string, params: seq<Entry>, inputs: Inputs, block: Value): Value {
    Assemble(id, rpcMethod, Object(ParamsWith(params, Object(EnvelopeEntries(inputs, block)))))
  }

  /** Assign `signature.value` inside the request envelope. */
  function Graft(v: Value, signature: string): Value {
    match GetPath(v, Signing.SignaturePath(Signing.Request))
    case Some(Object(es)) => PutPath(v, Signing.SignaturePath(Signing.Request), Object(Put(es, "value", String(signature))))
    case _ => v
  }

  function Build(w: World, id: Value, rpcMethod: string, params: seq<Entry>, inputs: Inputs, sign: string -> Result<string>)
    : Result<SignedRequest>
  {
    var _ :- CheckSchemeId(inputs.canonicalizationId);
    var request := Author(id, rpcMethod, params, inputs, Block(inputs.keyId));
    var preimage :- Signing.SigningPreimage(request, Signing.Request);
    var signature :- sign(preimage);
    var signed := Graft(request, signature);
    var h :- RequestHash(w, signed);
    Ok(SignedRequest(signed, h, Serialize(w, signed)))
  }

  /** The same, edited in place: `_meta` is taken out of the params, completed and put back. */
  method BuildSignedRequest(w: World, id: Value, rpcMethod: string, params: seq<Entry>, inputs: Inputs,
                            sign: string -> Result<string>)
    returns (r: Result<SignedRequest>)
    ensures r == Build(w, id, rpcMethod, params, inputs, sign)
  {
    var _ :- CheckSchemeId(inputs.canonicalizationId);
    var envelope := Object(EnvelopeEntries(inputs, Block(inputs.keyId)));
    var meta: seq<Entry> := [];
    var taken := Find(params, "_meta");
    var rest := Remove(params, "_meta");
    if taken.Some? && taken.value.Object? {
      meta := taken.value.entries;
    }
    meta := Put(meta, Signing.REQUEST_META_KEY, envelope);
    rest := Put(rest, "_meta", Object(meta));
    var request := Assemble(id, rpcMethod, Object(rest));
    var preimage :- Signing.SigningPreimage(request, Signing.Request);
    var signature :- sign(preimage);
    request := Graft(request, signature);
    var h :- RequestHash(w, request);
    return Ok(SignedRequest(request, h, Serialize(w, request)));
  }

  // ----- Grafting a signature changes no preimage -----

  lemma {:induction false} GetAfterPut(v: Value, path: seq<string>, x: Value)
    requires GetPath(v, path).Some?
    ensures GetPath(PutPath(v, path, x), path) == Some(x)
    decreases path
  {
    if path != [] {
      var child := Get(v, path[0]).value;
      GetAfterPut(child, path[1..], x);
      FindPut(v.entries, path[0], PutPath(child, path[1..], x), path[0]);
    }
  }

  lemma {:induction false} PutPathTwice(v: Value, path: seq<string>, x: Value, y: Value)
    requires GetPath(v, path).Some?
    ensures PutPath(PutPath(v, path, x), path, y) == PutPath(v, path, y)
    decreases path
  {
    if path != [] {
      var child := Get(v, path[0]).value;
      var child' := PutPath(child, path[1..], x);
      PutPathTwice(child, path[1..], x, y);
      FindPut(v.entries, path[0], child', path[0]);
      PutTwice(v.entries, path[0], child', PutPath(child, path[1..], y));
    }
  }

  lemma PutStep(v: Value, path: seq<string>, child: Value, x: Value)
    requires path != [] && Get(v, path[0]) == Some(child)
    ensures PutPath(v, path, x) == Object(Put(v.entries, path[0], PutPath(child, path[1..], x)))
  {
  }

  /** Stripping the signature value overwrites the block with what is left of it. */
  lemma StripIsPut(v: Value, loc: Signing.Location)
    requires Signing.HasSignatureBlock(v, loc)
    ensures var es := GetPath(v, Signing.SignaturePath(loc)).value.entries;
            Signing.StripSignatureValue(v, loc) == Ok(PutPath(v, Signing.SignaturePath(loc), Object(Remove(es, "value"))))
  {
    Signing.PathUnfolds(v, loc);
    var path := Signing.SignaturePath(loc);
    var container := Get(v, path[0]).value;
    var meta := Get(container, "_meta").value;
    var envelope := Get(meta, Signing.MetaKey(loc)).value;
    var block := Get(envelope, "signature").value;
    var x := Object(Remove(block.entries, "value"));
    PutStep(v, path, container, x);
    assert path[1..] == ["_meta", Signing.MetaKey(loc), "signature"];
    PutStep(container, path[1..], meta, x);
    assert path[1..][1..] == [Signing.MetaKey(loc), "signature"];
    PutStep(meta, path[1..][1..], envelope, x);
    assert path[1..][1..][1..] == ["signature"];
    PutStep(envelope, path[1..][1..][1..], block, x);
    assert path[1..][1..][1..][1..] == [];
  }

  /** The preimage, and so the request hash, does not depend on the signature grafted in. */
  lemma GraftKeepsPreimage(v: Value, signature: string)
    requires Signing.HasSignatureBlock(v, Signing.Request)
    ensures Signing.SigningPreimage(Graft(v, signature), Signing.Request) == Signing.SigningPreimage(v, Signing.Request)
  {
    var path := Signing.SignaturePath(Signing.Request);
    var es := GetPath(v, path).value.entries;
    var signed := Object(Put(es, "value", String(signature)));
    GetAfterPut(v, path, signed);
    StripIsPut(v, Signing.Request);
    StripIsPut(Graft(v, signature), Signing.Request);
    RemovePut(es, "value", String(signature));
    PutPathTwice(v, path, signed, Object(Remove(es, "value")));
  }

  // ----- The request as authored, and as grafted -----

  lemma {:induction false} FindAt(es: seq<Entry>, i: nat)
    requires i < |es| && forall j :: 0 <= j < i ==> es[j].key != es[i].key
    ensures Find(es, es[i].key) == Some(es[i].value)
  {
    if i > 0 {
      FindAt(es[1..], i - 1);
    }
  }

  lemma {:induction false} PutAt(es: seq<Entry>, i: nat, v: Value)
    requires i < |es| && forall j :: 0 <= j < i ==> es[j].key != es[i].key
    ensures Put(es, es[i].key, v) == es[i := Entry(es[i].key, v)]
  {
    if i == 0 {
      assert es[0 := Entry(es[0].key, v)] == [Entry(es[0].key, v)] + es[1..];
    } else {
      PutAt(es[1..], i - 1, v);
      assert es[i := Entry(es[i].key, v)] == [es[0]] + es[1..][i - 1 := Entry(es[i].key, v)];
    }
  }

  predicate Named(es: seq<Entry>, names: seq<string>) {
    |es| == |names| && forall i :: 0 <= i < |es| ==> es[i].key == names[i]
  }

  lemma FindNamed(es: seq<Entry>, names: seq<string>, i: nat)
    requires Named(es, names) && Distinct(names) && i < |names|
    ensures Find(es, names[i]) == Some(es[i].value)
  {
    FindAt(es, i);
  }

  lemma EnvelopeNamed(inputs: Inputs, block: Value)
    ensures Named(EnvelopeEntries(inputs, block), ENVELOPE_NAMES)
  {
  }

  lemma NamesDistinct()
    ensures Distinct(ENVELOPE_NAMES)
  {
  }

  function SignedBlock(keyId: string, signature: string): Value {
    Object([Entry("alg", String(SIG_ALG_ED25519)), Entry("key_id", String(keyId)), Entry("value", String(signature))])
  }

  lemma BlockSigned(keyId: string, signature: string)
    ensures Put(Block(keyId).entries, "value", String(signature)) == SignedBlock(keyId, signature).entries
  {
    var es := Block(keyId).entries;
    assert es[1..][1..] == [];
    assert es == [es[0], es[1]];
    assert Put(es[1..], "value", String(signature)) == [es[1]] + Put(es[1..][1..], "value", String(signature));
  }

  lemma EnvelopeBlock(inputs: Inputs, block: Value, block': Value)
    ensures Find(EnvelopeEntries(inputs, block), "signature") == Some(block)
    ensures Put(EnvelopeEntries(inputs, block), "signature", block') == EnvelopeEntries(inputs, block')
  {
    var es := EnvelopeEntries(inputs, block);
    EnvelopeNamed(inputs, block);
    NamesDistinct();
    FindNamed(es, ENVELOPE_NAMES, 9);
    PutAt(es, 9, block');
  }

  lemma ParamsMeta(params: seq<Entry>, envelope: Value, envelope': Value)
    ensures Find(ParamsWith(params, envelope), "_meta") ==
            Some(Object(Put(MetaEntries(params), Signing.REQUEST_META_KEY, envelope)))
    ensures Find(Put(MetaEntries(params), Signing.REQUEST_META_KEY, envelope), Signing.REQUEST_META_KEY) == Some(envelope)
    ensures Put(ParamsWith(params, envelope), "_meta", Object(Put(Put(MetaEntries(params), Signing.REQUEST_META_KEY, envelope),
                Signing.REQUEST_META_KEY, envelope'))) == ParamsWith(params, envelope')
  {
    var (key, meta) := (Signing.REQUEST_META_KEY, MetaEntries(params));
    var rest := Remove(params, "_meta");
    FindPut(rest, "_meta", Object(Put(meta, key, envelope)), "_meta");
    FindPut(meta, key, envelope, key);
    PutTwice(meta, key, envelope, envelope');
    PutTwice(rest, "_meta", Object(Put(meta, key, envelope)), Object(Put(meta, key, envelope')));
  }

  lemma Assembled(id: Value, rpcMethod: string, params: Value, params': Value)
    ensures Get(Assemble(id, rpcMethod, params), "id") == Some(id)
    ensures Get(Assemble(id, rpcMethod, params), "params") == Some(params)
    ensures Object(Put(Assemble(id, rpcMethod, params).entries, "params", params')) == Assemble(id, rpcMethod, params')
  {
    var es := Assemble(id, rpcMethod, params).entries;
    FindAt(es, 0);
    FindAt(es, 3);
    PutAt(es, 3, params');
    assert es[3 := Entry("params", params')] == Assemble(id, rpcMethod, params').entries;
  }

  /** Where the envelope of an authored request is. */
  lemma AuthoredEnvelope(id: Value, rpcMethod: string, params: seq<Entry>, inputs: Inputs, block: Value)
    ensures var v := Author(id, rpcMethod, params, inputs, block);
            && LocateEnvelope(v, Signing.Request) == Ok(Object(EnvelopeEntries(inputs, block)))
            && GetPath(v, Signing.SignaturePath(Signing.Request)) == Some(block)
            && Get(v, "id") == Some(id)
  {
    var envelope := Object(EnvelopeEntries(inputs, block));
    var v := Author(id, rpcMethod, params, inputs, block);
    Assembled(id, rpcMethod, Object(ParamsWith(params, envelope)), Null);
    ParamsMeta(params, envelope, Null);
    EnvelopeBlock(inputs, block, Null);
    Signing.PathUnfolds(v, Signing.Request);
  }

  lemma PutBlock(id: Value, rpcMethod: string, params: seq<Entry>, inputs: Inputs, block: Value, block': Value)
    ensures PutPath(Author(id, rpcMethod, params, inputs, block), Signing.SignaturePath(Signing.Request), block') ==
            Author(id, rpcMethod, params, inputs, block')
  {
    var envelope, envelope' := Object(EnvelopeEntries(inputs, block)), Object(EnvelopeEntries(inputs, block'));
    var key := Signing.REQUEST_META_KEY;
    var meta := Object(Put(MetaEntries(params), key, envelope));
    var container := Object(ParamsWith(params, envelope));
    var v := Author(id, rpcMethod, params, inputs, block);
    var path := Signing.SignaturePath(Signing.Request);
    Assembled(id, rpcMethod, container, Object(ParamsWith(params, envelope')));
    ParamsMeta(params, envelope, envelope');
    EnvelopeBlock(inputs, block, block');
    PutStep(v, path, container, block');
    assert path[1..] == ["_meta", key, "signature"];
    PutStep(container, path[1..], meta, block');
    assert path[1..][1..] == [key, "signature"];
    PutStep(meta, path[1..][1..], envelope, block');
    assert path[1..][1..][1..] == ["signature"];
    PutStep(envelope, path[1..][1..][1..], block, block');
    assert path[1..][1..][1..][1..] == [];
  }

  lemma GraftAuthored(id: Value, rpcMethod: string, params: seq<Entry>, inputs: Inputs, signature: string)
    ensures Graft(Author(id, rpcMethod, params, inputs, Block(inputs.keyId)), signature) ==
            Author(id, rpcMethod, params, inputs, SignedBlock(inputs.keyId, signature))
  {
    AuthoredEnvelope(id, rpcMethod, params, inputs, Block(inputs.keyId));
    BlockSigned(inputs.keyId, signature);
    PutBlock(id, rpcMethod, params, inputs, Block(inputs.keyId), SignedBlock(inputs.keyId, signature));
  }

  /** A build succeeds exactly when the scheme is allowed, the preimage exists and the signer signs it. */
  lemma BuiltExactly(w: World, id: Value, rpcMethod: string, params: seq<Entry>, inputs: Inputs, sign: string -> Result<string>)
    ensures var draft := Author(id, rpcMethod, params, inputs, Block(inputs.keyId));
            var preimage := Signing.SigningPreimage(draft, Signing.Request);
            var built := Build(w, id, rpcMethod, params, inputs, sign);
            && (built.Ok? <==> && inputs.canonicalizationId in DRAFT_02_CANONICALIZATION_ALLOWLIST
                               && preimage.Ok? && sign(preimage.value).Ok?)
            && (built.Ok? ==>
                && built.value.request == Author(id, rpcMethod, params, inputs, SignedBlock(inputs.keyId, sign(preimage.value).value))
                && Signing.SigningPreimage(built.value.request, Signing.Request) == preimage
                && built.value.requestHash == w.hash(preimage.value)
                && built.value.wire == Serialize(w, built.value.request))
  {
    var draft := Author(id, rpcMethod, params, inputs, Block(inputs.keyId));
    var preimage := Signing.SigningPreimage(draft, Signing.Request);
    AuthoredEnvelope(id, rpcMethod, params, inputs, Block(inputs.keyId));
    if preimage.Ok? && sign(preimage.value).Ok? {
      GraftKeepsPreimage(draft, sign(preimage.value).value);
      GraftAuthored(id, rpcMethod, params, inputs, sign(preimage.value).value);
    }
  }
}
