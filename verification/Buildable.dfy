/** Which requests can be built, and that what is built can be carried and accepted. */
module Buildable {
  import opened Outcome
  import opened Message
  import opened Envelope
  import opened Pipeline
  import opened Request
  import opened RequestAcceptance
  import opened RequestDomain
  import opened Serialized
  import opened Verification
  import Grammar
  import Jcs
  import Replay
  import Signing

  /** Distinct names over values that are fine, except under the names to be skipped. */
  predicate FineExcept(es: seq<Entry>, skip: seq<string>, depth: nat) {
    UniqueNames(es) && forall i :: 0 <= i < |es| ==> es[i].key in skip || Fine(es[i].value, depth)
  }

  lemma FineText(s: string, depth: nat)
    ensures Fine(String(s), depth)
  {
  }

  lemma FineObject(es: seq<Entry>, depth: nat)
    requires depth < Jcs.MAX_PARSE_DEPTH && FineExcept(es, [], depth + 1)
    ensures Fine(Object(es), depth)
  {
    forall i | 0 <= i < |es| ensures EntryToJcs(es[i], depth + 1).Some? {
      assert Fine(es[i].value, depth + 1);
    }
    var ms := EntriesToJcs(es, depth + 1).value;
    forall i | 0 <= i < |ms| ensures ms[i].key == es[i].key && Jcs.Printable(ms[i].value, depth + 1) {
      assert EntryToJcs(es[i], depth + 1) == Some(ms[i]);
      assert Fine(es[i].value, depth + 1);
    }
    assert Jcs.UniqueKeys(ms);
  }

  // ----- Put and Remove keep entries fine -----

  predicate Lacks(es: seq<Entry>, key: string) {
    forall i :: 0 <= i < |es| ==> es[i].key != key
  }

  lemma ConsFine(e: Entry, es: seq<Entry>, skip: seq<string>, depth: nat)
    requires (e.key in skip || Fine(e.value, depth)) && FineExcept(es, skip, depth) && Lacks(es, e.key)
    ensures FineExcept([e] + es, skip, depth)
  {
  }

  lemma {:induction false} PutFine(es: seq<Entry>, key: string, v: Value, skip: seq<string>, depth: nat)
    requires FineExcept(es, [key] + skip, depth) && Fine(v, depth)
    ensures FineExcept(Put(es, key, v), skip, depth)
    ensures forall other :: other != key && Lacks(es, other) ==> Lacks(Put(es, key, v), other)
  {
    if es != [] {
      var rest := es[1..];
      assert FineExcept(rest, [key] + skip, depth) && Lacks(rest, es[0].key);
      assert forall other :: Lacks(es, other) ==> Lacks(rest, other);
      if es[0].key == key {
        ConsFine(Entry(key, v), rest, skip, depth);
      } else {
        PutFine(rest, key, v, skip, depth);
        ConsFine(es[0], Put(rest, key, v), skip, depth);
      }
    }
  }

  lemma {:induction false} RemoveFine(es: seq<Entry>, key: string, skip: seq<string>, depth: nat)
    requires FineExcept(es, [key] + skip, depth)
    ensures FineExcept(Remove(es, key), skip, depth)
    ensures forall other :: Lacks(es, other) ==> Lacks(Remove(es, key), other)
  {
    if es != [] {
      var rest := es[1..];
      assert FineExcept(rest, [key] + skip, depth) && Lacks(rest, es[0].key);
      RemoveFine(rest, key, skip, depth);
      assert forall other :: Lacks(es, other) ==> Lacks(rest, other);
      if es[0].key != key {
        ConsFine(es[0], Remove(rest, key), skip, depth);
      }
    }
  }

  lemma {:induction false} RemoveKeysFine(es: seq<Entry>, keys: seq<string>, depth: nat)
    requires FineExcept(es, keys, depth)
    ensures FineExcept(Signing.RemoveKeys(es, keys), [], depth)
    decreases keys
  {
    if keys != [] {
      assert keys == [keys[0]] + keys[1..];
      RemoveFine(es, keys[0], keys[1..], depth);
      RemoveKeysFine(Remove(es, keys[0]), keys[1..], depth);
    }
  }

  // ----- The envelope -----

  lemma NamedUnique(es: seq<Entry>, names: seq<string>)
    requires Named(es, names) && Distinct(names)
    ensures UniqueNames(es)
  {
  }

  lemma BlockFine(keyId: string)
    ensures Fine(Block(keyId), 4)
  {
    FineObject(Block(keyId).entries, 4);
  }

  lemma BindingFine(b: AuthorizationBinding)
    ensures Fine(EncodeBinding(b), 4)
  {
    FineObject(EncodeBinding(b).entries, 4);
  }

  lemma SignedBlockFine(keyId: string, signature: string)
    ensures Fine(SignedBlock(keyId, signature), 4)
  {
    FineObject(SignedBlock(keyId, signature).entries, 4);
  }

  lemma EnvelopeFine(inputs: Inputs, block: Value)
    requires Fine(block, 4)
    ensures Fine(Object(EnvelopeEntries(inputs, block)), 3)
  {
    var es := EnvelopeEntries(inputs, block);
    BindingFine(inputs.binding);
    EnvelopeNamed(inputs, block);
    NamesDistinct();
    NamedUnique(es, ENVELOPE_NAMES);
    forall i | 0 <= i < |es| ensures Fine(es[i].value, 4) {
      if i != 5 && i != 9 {
        FineText(es[i].value.s, 4);
      }
    }
    FineObject(es, 3);
  }

  lemma AssembledFine(id: Value, rpcMethod: string, params: seq<Entry>)
    requires Fine(id, 1) && FineExcept(params, [], 2)
    ensures Fine(Assemble(id, rpcMethod, Object(params)), 0)
  {
    FineObject(params, 1);
    FineText("2.0", 1);
    FineText(rpcMethod, 1);
    FineObject(Assemble(id, rpcMethod, Object(params)).entries, 0);
  }

  // ----- A preimage exists -----

  /**
   * Building fails only for the request's own content: with a fine id and params that are
   * fine outside the trace keys, which are not looked at, a preimage exists.
   */
  lemma PreimageExists(id: Value, rpcMethod: string, params: seq<Entry>, inputs: Inputs)
    requires Fine(id, 1) && FineExcept(params, ["_meta"], 2)
    requires FineExcept(MetaEntries(params), [Signing.REQUEST_META_KEY] + Signing.OBSERVABILITY_META_KEYS, 3)
    ensures Preimage(id, rpcMethod, params, inputs).Ok?
  {
    var keys := Signing.OBSERVABILITY_META_KEYS;
    var envelope := Object(EnvelopeEntries(inputs, Block(inputs.keyId)));
    BlockFine(inputs.keyId);
    EnvelopeFine(inputs, Block(inputs.keyId));
    var meta := Put(MetaEntries(params), Signing.REQUEST_META_KEY, envelope);
    PutFine(MetaEntries(params), Signing.REQUEST_META_KEY, envelope, keys, 3);
    RemoveKeysFine(meta, keys, 3);
    FineObject(Signing.RemoveKeys(meta, keys), 2);
    StrippedFine(params, envelope);
    AssembledFine(id, rpcMethod, StrippedParams(params, envelope));
    AuthoredPreimage(id, rpcMethod, params, inputs);
  }

  lemma StrippedFine(params: seq<Entry>, envelope: Value)
    requires FineExcept(params, ["_meta"], 2)
    requires var meta := Put(MetaEntries(params), Signing.REQUEST_META_KEY, envelope);
             Fine(Object(Signing.RemoveKeys(meta, Signing.OBSERVABILITY_META_KEYS)), 2)
    ensures FineExcept(StrippedParams(params, envelope), [], 2)
  {
    var meta := Put(MetaEntries(params), Signing.REQUEST_META_KEY, envelope);
    assert ["_meta"] == ["_meta"] + [];
    RemoveFine(params, "_meta", [], 2);
    PutFine(Remove(params, "_meta"), "_meta", Object(Signing.RemoveKeys(meta, Signing.OBSERVABILITY_META_KEYS)), [], 2);
  }

  // ----- What is built is carried and accepted -----

  lemma RequestFine(id: Value, rpcMethod: string, params: seq<Entry>, inputs: Inputs, block: Value)
    requires Fine(id, 1) && FineExcept(params, ["_meta"], 2) && Fine(block, 4)
    requires FineExcept(MetaEntries(params), [Signing.REQUEST_META_KEY], 3)
    ensures Fine(Author(id, rpcMethod, params, inputs, block), 0)
  {
    var key := Signing.REQUEST_META_KEY;
    var envelope := Object(EnvelopeEntries(inputs, block));
    EnvelopeFine(inputs, block);
    assert [key] == [key] + [] && ["_meta"] == ["_meta"] + [];
    PutFine(MetaEntries(params), key, envelope, [], 3);
    FineObject(Put(MetaEntries(params), key, envelope), 2);
    RemoveFine(params, "_meta", [], 2);
    PutFine(Remove(params, "_meta"), "_meta", Object(Put(MetaEntries(params), key, envelope)), [], 2);
    AssembledFine(id, rpcMethod, ParamsWith(params, envelope));
  }

  lemma FineTraces(meta: seq<Entry>)
    requires FineExcept(meta, [Signing.REQUEST_META_KEY], 3)
    ensures TracesInDomain(meta)
    ensures FineExcept(meta, [Signing.REQUEST_META_KEY] + Signing.OBSERVABILITY_META_KEYS, 3)
  {
    forall e | e in meta && e.key in Signing.OBSERVABILITY_META_KEYS ensures InDomain(e.value, 3) {
      var i :| 0 <= i < |meta| && meta[i] == e;
      assert Fine(meta[i].value, 3);
    }
  }

  /** The signer always signs, and the resolved key verifies its signatures. */
  ghost predicate SignerAgrees(w: World, inputs: Inputs, sign: string -> Result<string>, resolver: Resolver) {
    && resolver(inputs.signer, inputs.keyId).Resolved?
    && forall p :: sign(p).Ok? && w.verifies(resolver(inputs.signer, inputs.keyId).key, p, sign(p).value)
  }

  lemma FineBuild(w: World, id: Value, rpcMethod: string, params: seq<Entry>, inputs: Inputs, sign: string -> Result<string>)
    requires Fine(id, 1) && FineExcept(params, ["_meta"], 2)
    requires FineExcept(MetaEntries(params), [Signing.REQUEST_META_KEY], 3)
    requires inputs.canonicalizationId in DRAFT_02_CANONICALIZATION_ALLOWLIST
    requires forall p :: sign(p).Ok?
    ensures Build(w, id, rpcMethod, params, inputs, sign).Ok?
    ensures var built := Build(w, id, rpcMethod, params, inputs, sign).value;
            Fine(built.request, 0) && built.wire == Compact(built.request)
  {
    FineTraces(MetaEntries(params));
    PreimageExists(id, rpcMethod, params, inputs);
    BuiltExactly(w, id, rpcMethod, params, inputs, sign);
    var signature := sign(Preimage(id, rpcMethod, params, inputs).value).value;
    SignedBlockFine(inputs.keyId, signature);
    RequestFine(id, rpcMethod, params, inputs, SignedBlock(inputs.keyId, signature));
  }

  /**
   * Every request with fine content builds to a wire text that means it, and a verifier that
   * decodes that text to the request, holds the agreeing key and has not seen its nonce
   * accepts it, with the inputs and the builder's hash.
   */
  lemma FineRequestsAreAccepted(w: World, id: Value, rpcMethod: string, params: seq<Entry>, inputs: Inputs,
                                sign: string -> Result<string>, resolver: Resolver, cache: Replay.Cache, config: Config, now: int)
    requires IsI64(now) && IsI64(config.maxClockSkew)
    requires Fine(id, 1) && !id.Null? && FineExcept(params, ["_meta"], 2)
    requires FineExcept(MetaEntries(params), [Signing.REQUEST_META_KEY], 3)
    requires inputs.canonicalizationId in DRAFT_02_CANONICALIZATION_ALLOWLIST
    requires ProperBinding(inputs.binding) && inputs.onBehalfOf != "" && inputs.audience == config.expectedAudience
    requires Timely(inputs.issuedAt, inputs.expiresAt, config.maxClockSkew, now) && SignerAgrees(w, inputs, sign, resolver)
    requires Replay.ReplayKey(inputs.signer, inputs.audience, inputs.nonce) !in cache.seen
    ensures Build(w, id, rpcMethod, params, inputs, sign).Ok?
    ensures var built := Build(w, id, rpcMethod, params, inputs, sign).value;
            && (forall j :: Grammar.Derives(built.wire, j) <==> ToJcs(built.request, 0) == Some(j))
            && (w.decode(built.wire) == Some(built.request) ==>
                VerifyUnder(w, Draft02, built.wire, resolver, cache, config, now).0 == Ok(RecordOf(inputs, built.requestHash)))
  {
    FineBuild(w, id, rpcMethod, params, inputs, sign);
    var built := Build(w, id, rpcMethod, params, inputs, sign).value;
    CompactMeans(built.request);
    if w.decode(built.wire) == Some(built.request) {
      FineTraces(MetaEntries(params));
      BuiltAcceptedExactly(w, id, rpcMethod, params, inputs, sign, built.wire, resolver, cache, config, now);
    }
  }

  /** `w` in which one text decodes to one message. */
  function Decoding(w: World, text: string, v: Value): World {
    World((t: string) => if t == text then Some(v) else w.decode(t), w.verifies, w.hash, w.otherText)
  }

  lemma SameBuild(w: World, w': World, id: Value, rpcMethod: string, params: seq<Entry>, inputs: Inputs, sign: string -> Result<string>)
    requires w'.hash == w.hash && w'.otherText == w.otherText
    ensures Build(w', id, rpcMethod, params, inputs, sign) == Build(w, id, rpcMethod, params, inputs, sign)
  {
  }

  /** Such a decoder exists for every such request, whatever else the world does. */
  lemma AcceptanceHappens(w: World, id: Value, rpcMethod: string, params: seq<Entry>, inputs: Inputs,
                          sign: string -> Result<string>, resolver: Resolver, cache: Replay.Cache, config: Config, now: int)
    returns (w': World)
    requires IsI64(now) && IsI64(config.maxClockSkew)
    requires Fine(id, 1) && !id.Null? && FineExcept(params, ["_meta"], 2)
    requires FineExcept(MetaEntries(params), [Signing.REQUEST_META_KEY], 3)
    requires inputs.canonicalizationId in DRAFT_02_CANONICALIZATION_ALLOWLIST
    requires ProperBinding(inputs.binding) && inputs.onBehalfOf != "" && inputs.audience == config.expectedAudience
    requires Timely(inputs.issuedAt, inputs.expiresAt, config.maxClockSkew, now) && SignerAgrees(w, inputs, sign, resolver)
    requires Replay.ReplayKey(inputs.signer, inputs.audience, inputs.nonce) !in cache.seen
    ensures Build(w', id, rpcMethod, params, inputs, sign).Ok?
    ensures var built := Build(w', id, rpcMethod, params, inputs, sign).value;
            && Carries(w', built.wire, built.request)
            && VerifyUnder(w', Draft02, built.wire, resolver, cache, config, now).0 == Ok(RecordOf(inputs, built.requestHash))
  {
    FineBuild(w, id, rpcMethod, params, inputs, sign);
    var built := Build(w, id, rpcMethod, params, inputs, sign).value;
    w' := Decoding(w, built.wire, built.request);
    SameBuild(w, w', id, rpcMethod, params, inputs, sign);
    FineRequestsAreAccepted(w', id, rpcMethod, params, inputs, sign, resolver, cache, config, now);
  }
}
