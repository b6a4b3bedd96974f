/** What a built request says: the caller's call, unchanged, with the envelope of its inputs. */
module RequestContent {
  import opened Outcome
  import opened Message
  import opened Envelope
  import opened Extraction
  import opened Pipeline
  import opened Request
  import opened RequestAcceptance
  import Signing

  /** A JSON-RPC request of exactly four members: this id, this method and these params. */
  ghost predicate IsCall(request: Value, id: Value, rpcMethod: string, params: Value) {
    && Get(request, "id") == Some(id)
    && TextIs(request, "jsonrpc", "2.0")
    && TextIs(request, "method", rpcMethod)
    && Get(request, "params") == Some(params)
    && forall k :: k !in {"id", "jsonrpc", "method", "params"} ==> Get(request, k).None?
  }

  /** What the caller's `_meta` holds under a name. */
  function CallerMeta(params: seq<Entry>, k: string): Option<Value> {
    match Find(params, "_meta")
    case Some(meta) => Get(meta, k)
    case None => None
  }

  /** The caller's params under every name, and the caller's `_meta` beside the envelope. */
  ghost predicate KeepsParams(params: seq<Entry>, sent: Value) {
    && (forall k :: k != "_meta" ==> Get(sent, k) == Find(params, k))
    && Get(sent, "_meta").Some? && Get(sent, "_meta").value.Object?
    && (forall k :: k != "se.syncom/mcps.request" ==> Get(Get(sent, "_meta").value, k) == CallerMeta(params, k))
  }

  /** The envelope states the inputs, and a signature. */
  predicate StatesInputs(envelope: Value, inputs: Inputs, signature: string) {
    && TextIs(envelope, "version", "draft-02")
    && TextIs(envelope, "canonicalization_id", inputs.canonicalizationId)
    && TextIs(envelope, "signer", inputs.signer)
    && TextIs(envelope, "on_behalf_of", inputs.onBehalfOf)
    && TextIs(envelope, "audience", inputs.audience)
    && TextIs(envelope, "nonce", inputs.nonce)
    && TextIs(envelope, "issued_at", inputs.issuedAt)
    && TextIs(envelope, "expires_at", inputs.expiresAt)
    && Get(envelope, "authorization_binding").Some?
    && BindingReads(Get(envelope, "authorization_binding").value, inputs.binding)
    && Get(envelope, "signature").Some?
    && BlockReads(Get(envelope, "signature").value, SignatureBlock("Ed25519", inputs.keyId, Some(signature)))
  }

  lemma CallAssembled(id: Value, rpcMethod: string, params: Value)
    ensures IsCall(Assemble(id, rpcMethod, params), id, rpcMethod, params)
  {
    var es := Assemble(id, rpcMethod, params).entries;
    FindAt(es, 0);
    FindAt(es, 1);
    FindAt(es, 2);
    FindAt(es, 3);
    forall k | k !in {"id", "jsonrpc", "method", "params"} ensures Find(es, k).None? {
      FindAbsent(es, k);
    }
  }

  lemma ParamsKept(params: seq<Entry>, envelope: Value)
    ensures KeepsParams(params, Object(ParamsWith(params, envelope)))
    ensures Get(Get(Object(ParamsWith(params, envelope)), "_meta").value, "se.syncom/mcps.request") == Some(envelope)
  {
    var (key, meta) := (Signing.REQUEST_META_KEY, MetaEntries(params));
    var rest := Remove(params, "_meta");
    var put := Object(Put(meta, key, envelope));
    forall k ensures Find(Put(rest, "_meta", put), k) == if k == "_meta" then Some(put) else Find(params, k) {
      FindPut(rest, "_meta", put, k);
      FindRemove(params, "_meta", k);
    }
    forall k ensures Find(Put(meta, key, envelope), k) == if k == key then Some(envelope) else CallerMeta(params, k) {
      FindPut(meta, key, envelope, k);
    }
  }

  lemma BindingStated(b: AuthorizationBinding)
    ensures BindingReads(EncodeBinding(b), b)
  {
    match b
    case OpaqueBytes(alg, digest) => EncodedOpaque(alg, digest);
    case AuthzSystemReference(sys, scheme, reference, alg, digest) => EncodedReference(sys, scheme, reference, alg, digest);
  }

  lemma InputsStated(inputs: Inputs, signature: string)
    ensures StatesInputs(Object(EnvelopeEntries(inputs, SignedBlock(inputs.keyId, signature))), inputs, signature)
  {
    AuthoredFields(inputs, SignedBlock(inputs.keyId, signature));
    SignedBlockReads(inputs.keyId, signature);
    BindingStated(inputs.binding);
  }

  lemma AuthoredSays(id: Value, rpcMethod: string, params: seq<Entry>, inputs: Inputs, signature: string)
    ensures var request := Author(id, rpcMethod, params, inputs, SignedBlock(inputs.keyId, signature));
            && Get(request, "params").Some?
            && IsCall(request, id, rpcMethod, Get(request, "params").value)
            && KeepsParams(params, Get(request, "params").value)
            && var envelope := Object(EnvelopeEntries(inputs, SignedBlock(inputs.keyId, signature)));
            && RequestEnvelopeIs(request, envelope) && StatesInputs(envelope, inputs, signature)
  {
    var envelope := Object(EnvelopeEntries(inputs, SignedBlock(inputs.keyId, signature)));
    CallAssembled(id, rpcMethod, Object(ParamsWith(params, envelope)));
    ParamsKept(params, envelope);
    InputsStated(inputs, signature);
    PathOfThree(Author(id, rpcMethod, params, inputs, SignedBlock(inputs.keyId, signature)),
                "params", "_meta", "se.syncom/mcps.request");
  }

  /**
   * A built request is the caller's call: its id, its method, its params under every name but
   * `_meta`, and the caller's `_meta` beside the envelope. The envelope states the inputs and
   * the signature over the request's own preimage, whose hash is the returned one.
   */
  lemma BuiltSays(w: World, id: Value, rpcMethod: string, params: seq<Entry>, inputs: Inputs, sign: string -> Result<string>)
    returns (envelope: Value)
    requires Build(w, id, rpcMethod, params, inputs, sign).Ok?
    ensures var built := Build(w, id, rpcMethod, params, inputs, sign).value;
            && Get(built.request, "params").Some?
            && IsCall(built.request, id, rpcMethod, Get(built.request, "params").value)
            && KeepsParams(params, Get(built.request, "params").value)
            && RequestEnvelopeIs(built.request, envelope)
            && var preimage := Signing.SigningPreimage(built.request, Signing.Request);
            && preimage.Ok? && sign(preimage.value).Ok?
            && StatesInputs(envelope, inputs, sign(preimage.value).value)
            && built.requestHash == w.hash(preimage.value)
  {
    BuiltExactly(w, id, rpcMethod, params, inputs, sign);
    var built := Build(w, id, rpcMethod, params, inputs, sign).value;
    var signature := sign(Signing.SigningPreimage(built.request, Signing.Request).value).value;
    AuthoredSays(id, rpcMethod, params, inputs, signature);
    envelope := Object(EnvelopeEntries(inputs, SignedBlock(inputs.keyId, signature)));
  }

  /** The scheme is judged before anything is built or signed. */
  lemma BuildVerdicts(w: World, id: Value, rpcMethod: string, params: seq<Entry>, inputs: Inputs, sign: string -> Result<string>)
    ensures inputs.canonicalizationId == "" ==>
            Build(w, id, rpcMethod, params, inputs, sign) == Err(CanonicalizationIdMissing)
    ensures inputs.canonicalizationId !in ["", "mcps-jcs-int53-json-v1"] ==>
            Build(w, id, rpcMethod, params, inputs, sign) == Err(CanonicalizationIdNotAllowed)
  {
  }
}
