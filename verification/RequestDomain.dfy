/**
 * Which built requests are inside the canonical domain as a whole. The preimage leaves
 * the trace keys out, so a build says nothing about them.
 */
module RequestDomain {
  import opened Outcome
  import opened Message
  import opened Envelope
  import opened Request
  import Jcs
  import Signing

  predicate InDomain(v: Value, depth: nat) {
    ToJcs(v, depth).Some?
  }

  predicate AllInDomain(es: seq<Entry>, depth: nat) {
    forall i :: 0 <= i < |es| ==> InDomain(es[i].value, depth)
  }

  lemma {:induction false} EntriesDomain(es: seq<Entry>, depth: nat)
    ensures EntriesToJcs(es, depth).Some? <==> AllInDomain(es, depth)
  {
    if es != [] {
      EntriesDomain(es[1..], depth);
      assert AllInDomain(es, depth) <==> InDomain(es[0].value, depth) && AllInDomain(es[1..], depth) by {
        assert forall i :: 0 < i < |es| ==> es[i] == es[1..][i - 1];
        assert forall i :: 0 <= i < |es[1..]| ==> es[1..][i] == es[i + 1];
      }
    }
  }

  lemma ObjectDomain(es: seq<Entry>, depth: nat)
    requires depth < Jcs.MAX_PARSE_DEPTH
    ensures InDomain(Object(es), depth) <==> AllInDomain(es, depth + 1)
  {
    EntriesDomain(es, depth + 1);
  }

  // ----- Put and Remove, entry by entry -----

  /** Two puts under one key differ only where they wrote. */
  lemma {:induction false} PutsDiffer(es: seq<Entry>, key: string, x: Value, y: Value)
    ensures |Put(es, key, x)| == |Put(es, key, y)|
    ensures forall i :: 0 <= i < |Put(es, key, x)| ==>
              Put(es, key, x)[i] == Put(es, key, y)[i] ||
              (Put(es, key, x)[i] == Entry(key, x) && Put(es, key, y)[i] == Entry(key, y))
  {
    if es != [] && es[0].key != key {
      PutsDiffer(es[1..], key, x, y);
    }
  }

  lemma PutDomain(es: seq<Entry>, key: string, x: Value, y: Value, depth: nat)
    requires AllInDomain(Put(es, key, x), depth) && InDomain(y, depth)
    ensures AllInDomain(Put(es, key, y), depth)
  {
    PutsDiffer(es, key, x, y);
  }

  lemma {:induction false} PutWrites(es: seq<Entry>, key: string, x: Value)
    ensures Entry(key, x) in Put(es, key, x)
    ensures forall e :: e in es && e.key != key ==> e in Put(es, key, x)
  {
    if es != [] && es[0].key != key {
      PutWrites(es[1..], key, x);
    }
  }

  lemma {:induction false} RemoveMembers(es: seq<Entry>, key: string, e: Entry)
    ensures e in Remove(es, key) <==> e in es && e.key != key
  {
    if es != [] {
      RemoveMembers(es[1..], key, e);
      assert e in es <==> e == es[0] || e in es[1..];
    }
  }

  lemma {:induction false} RemoveKeysMembers(es: seq<Entry>, keys: seq<string>, e: Entry)
    ensures e in Signing.RemoveKeys(es, keys) <==> e in es && e.key !in keys
    decreases keys
  {
    if keys != [] {
      RemoveMembers(es, keys[0], e);
      RemoveKeysMembers(Remove(es, keys[0]), keys[1..], e);
      assert e.key in keys <==> e.key == keys[0] || e.key in keys[1..];
    }
  }

  /** The trace entries are in the domain. */
  predicate TracesInDomain(meta: seq<Entry>) {
    forall e :: e in meta && e.key in Signing.OBSERVABILITY_META_KEYS ==> InDomain(e.value, 3)
  }

  lemma MetaDomain(es: seq<Entry>)
    requires AllInDomain(Signing.RemoveKeys(es, Signing.OBSERVABILITY_META_KEYS), 3)
    ensures AllInDomain(es, 3) <==> TracesInDomain(es)
  {
    var kept := Signing.RemoveKeys(es, Signing.OBSERVABILITY_META_KEYS);
    if TracesInDomain(es) {
      forall i | 0 <= i < |es| ensures InDomain(es[i].value, 3) {
        RemoveKeysMembers(es, Signing.OBSERVABILITY_META_KEYS, es[i]);
        if es[i] in kept {
          var j :| 0 <= j < |kept| && kept[j] == es[i];
          assert InDomain(kept[j].value, 3);
        }
      }
    }
  }

  lemma TracesSurvivePut(meta: seq<Entry>, envelope: Value)
    ensures TracesInDomain(Put(meta, Signing.REQUEST_META_KEY, envelope)) <==> TracesInDomain(meta)
  {
    var key := Signing.REQUEST_META_KEY;
    var es := Put(meta, key, envelope);
    PutWrites(meta, key, envelope);
    forall e | e in es && e.key != key ensures e in meta {
      PutMembers(meta, key, envelope, e);
    }
  }

  lemma {:induction false} PutMembers(es: seq<Entry>, key: string, x: Value, e: Entry)
    requires e in Put(es, key, x) && e != Entry(key, x)
    ensures e in es
  {
    if es != [] && es[0].key != key {
      if e != es[0] {
        PutMembers(es[1..], key, x, e);
      }
    }
  }

  // ----- The preimage of an authored request -----

  function StrippedParams(params: seq<Entry>, envelope: Value): seq<Entry> {
    Put(Remove(params, "_meta"), "_meta",
        Object(Signing.RemoveKeys(Put(MetaEntries(params), Signing.REQUEST_META_KEY, envelope), Signing.OBSERVABILITY_META_KEYS)))
  }

  lemma StrippedBlock(keyId: string)
    ensures Remove(Block(keyId).entries, "value") == Block(keyId).entries
  {
    var es := Block(keyId).entries;
    assert es[1..][1..] == [];
    assert Remove(es[1..], "value") == [es[1]] + Remove(es[1..][1..], "value");
  }

  lemma AuthoredStrip(id: Value, rpcMethod: string, params: seq<Entry>, inputs: Inputs)
    ensures var v := Author(id, rpcMethod, params, inputs, Block(inputs.keyId));
            Signing.StripSignatureValue(v, Signing.Request) == Ok(v)
  {
    AuthoredEnvelope(id, rpcMethod, params, inputs, Block(inputs.keyId));
    StripIsPut(Author(id, rpcMethod, params, inputs, Block(inputs.keyId)), Signing.Request);
    StrippedBlock(inputs.keyId);
    PutBlock(id, rpcMethod, params, inputs, Block(inputs.keyId), Block(inputs.keyId));
  }

  lemma AuthoredPreimage(id: Value, rpcMethod: string, params: seq<Entry>, inputs: Inputs)
    ensures Signing.SigningPreimage(Author(id, rpcMethod, params, inputs, Block(inputs.keyId)), Signing.Request) ==
            Signing.CanonicalizeJson(Assemble(id, rpcMethod,
              Object(StrippedParams(params, Object(EnvelopeEntries(inputs, Block(inputs.keyId)))))))
  {
    var envelope := Object(EnvelopeEntries(inputs, Block(inputs.keyId)));
    var v := Author(id, rpcMethod, params, inputs, Block(inputs.keyId));
    AuthoredStrip(id, rpcMethod, params, inputs);
    Stripped(id, rpcMethod, params, envelope);
  }

  lemma Stripped(id: Value, rpcMethod: string, params: seq<Entry>, envelope: Value)
    ensures Signing.StripObservabilityMeta(Assemble(id, rpcMethod, Object(ParamsWith(params, envelope))), Signing.Request) ==
            Assemble(id, rpcMethod, Object(StrippedParams(params, envelope)))
  {
    var meta := Put(MetaEntries(params), Signing.REQUEST_META_KEY, envelope);
    var kept := Signing.RemoveKeys(meta, Signing.OBSERVABILITY_META_KEYS);
    ParamsMeta(params, envelope, Null);
    PutTwice(Remove(params, "_meta"), "_meta", Object(meta), Object(kept));
    Assembled(id, rpcMethod, Object(ParamsWith(params, envelope)), Object(StrippedParams(params, envelope)));
  }

  // ----- Domain of the whole -----

  lemma AssembledDomain(id: Value, rpcMethod: string, params: seq<Entry>)
    ensures InDomain(Assemble(id, rpcMethod, Object(params)), 0) <==> InDomain(id, 1) && AllInDomain(params, 2)
  {
    var es := Assemble(id, rpcMethod, Object(params)).entries;
    ObjectDomain(es, 0);
    ObjectDomain(params, 1);
    assert InDomain(es[1].value, 1) && InDomain(es[2].value, 1);
    assert es[0].value == id && es[3].value == Object(params);
  }

  lemma PutDomainValue(es: seq<Entry>, key: string, x: Value, depth: nat)
    requires AllInDomain(Put(es, key, x), depth)
    ensures InDomain(x, depth)
  {
    PutWrites(es, key, x);
    var put := Put(es, key, x);
    var i :| 0 <= i < |put| && put[i] == Entry(key, x);
  }

  /** Replacing one `_meta` by another moves the params in or out of the domain with it. */
  lemma ParamsDomain(rest: seq<Entry>, meta: seq<Entry>, meta': seq<Entry>)
    requires AllInDomain(Put(rest, "_meta", Object(meta)), 2)
    ensures AllInDomain(meta, 3)
    ensures AllInDomain(Put(rest, "_meta", Object(meta')), 2) <==> AllInDomain(meta', 3)
  {
    PutDomainValue(rest, "_meta", Object(meta), 2);
    ObjectDomain(meta, 2);
    ObjectDomain(meta', 2);
    if AllInDomain(meta', 3) {
      PutDomain(rest, "_meta", Object(meta), Object(meta'), 2);
    }
    if AllInDomain(Put(rest, "_meta", Object(meta')), 2) {
      PutDomainValue(rest, "_meta", Object(meta'), 2);
    }
  }

  lemma EnvelopeDomain(inputs: Inputs, signature: string)
    ensures InDomain(Object(EnvelopeEntries(inputs, SignedBlock(inputs.keyId, signature))), 3)
  {
    var block := SignedBlock(inputs.keyId, signature);
    var es := EnvelopeEntries(inputs, block);
    ObjectDomain(block.entries, 4);
    BindingDomain(inputs.binding);
    ObjectDomain(es, 3);
  }

  lemma BindingDomain(b: AuthorizationBinding)
    ensures InDomain(EncodeBinding(b), 4)
  {
    ObjectDomain(EncodeBinding(b).entries, 4);
  }

  /** A request whose preimage exists is in the domain exactly when its trace entries are. */
  lemma TracesDecide(id: Value, rpcMethod: string, params: seq<Entry>, inputs: Inputs, signature: string)
    requires Signing.SigningPreimage(Author(id, rpcMethod, params, inputs, Block(inputs.keyId)), Signing.Request).Ok?
    ensures InDomain(Author(id, rpcMethod, params, inputs, SignedBlock(inputs.keyId, signature)), 0) <==>
            TracesInDomain(MetaEntries(params))
  {
    var draft := Object(EnvelopeEntries(inputs, Block(inputs.keyId)));
    var envelope := Object(EnvelopeEntries(inputs, SignedBlock(inputs.keyId, signature)));
    AuthoredPreimage(id, rpcMethod, params, inputs);
    AssembledDomain(id, rpcMethod, StrippedParams(params, draft));
    AssembledDomain(id, rpcMethod, ParamsWith(params, envelope));
    EnvelopeDomain(inputs, signature);
    MetaDecides(params, draft, envelope);
  }

  lemma MetaDecides(params: seq<Entry>, draft: Value, envelope: Value)
    requires AllInDomain(StrippedParams(params, draft), 2) && InDomain(envelope, 3)
    ensures AllInDomain(ParamsWith(params, envelope), 2) <==> TracesInDomain(MetaEntries(params))
  {
    var (key, keys) := (Signing.REQUEST_META_KEY, Signing.OBSERVABILITY_META_KEYS);
    var meta := MetaEntries(params);
    var (drafted, signed) := (Put(meta, key, draft), Put(meta, key, envelope));
    ParamsDomain(Remove(params, "_meta"), Signing.RemoveKeys(drafted, keys), signed);
    MetaDomain(drafted);
    TracesSurvivePut(meta, draft);
    TracesSurvivePut(meta, envelope);
    if AllInDomain(drafted, 3) {
      PutDomain(meta, key, draft, envelope, 3);
    }
    if AllInDomain(signed, 3) {
      AllTraces(signed);
    }
  }

  lemma AllTraces(es: seq<Entry>)
    requires AllInDomain(es, 3)
    ensures TracesInDomain(es)
  {
    forall e | e in es && e.key in Signing.OBSERVABILITY_META_KEYS ensures InDomain(e.value, 3) {
      var i :| 0 <= i < |es| && es[i] == e;
    }
  }

  // ----- Trace entries change no preimage -----

  /** The params with a traceparent of the caller's choice in `_meta`. */
  function WithTrace(params: seq<Entry>, trace: Value): seq<Entry> {
    Put(params, "_meta", Object(Put(MetaEntries(params), "traceparent", trace)))
  }

  lemma {:induction false} RemovePutOther(es: seq<Entry>, key: string, x: Value, other: string)
    requires key != other
    ensures Remove(Put(es, key, x), other) == Put(Remove(es, other), key, x)
  {
    if es != [] && es[0].key != key {
      RemovePutOther(es[1..], key, x, other);
    }
  }

  lemma TraceIsStripped(params: seq<Entry>, trace: Value, envelope: Value)
    ensures StrippedParams(WithTrace(params, trace), envelope) == StrippedParams(params, envelope)
    ensures MetaEntries(WithTrace(params, trace)) == Put(MetaEntries(params), "traceparent", trace)
  {
    var (key, keys) := (Signing.REQUEST_META_KEY, Signing.OBSERVABILITY_META_KEYS);
    var meta := MetaEntries(params);
    var traced := Put(meta, "traceparent", trace);
    FindPut(params, "_meta", Object(traced), "_meta");
    RemovePut(params, "_meta", Object(traced));
    RemovePut(meta, "traceparent", trace);
    RemovePutOther(meta, key, envelope, "traceparent");
    RemovePutOther(traced, key, envelope, "traceparent");
    assert keys[0] == "traceparent";
  }

  lemma TraceKeepsPreimage(id: Value, rpcMethod: string, params: seq<Entry>, inputs: Inputs, trace: Value)
    ensures Signing.SigningPreimage(Author(id, rpcMethod, WithTrace(params, trace), inputs, Block(inputs.keyId)), Signing.Request) ==
            Signing.SigningPreimage(Author(id, rpcMethod, params, inputs, Block(inputs.keyId)), Signing.Request)
  {
    AuthoredPreimage(id, rpcMethod, params, inputs);
    AuthoredPreimage(id, rpcMethod, WithTrace(params, trace), inputs);
    TraceIsStripped(params, trace, Object(EnvelopeEntries(inputs, Block(inputs.keyId))));
  }
}
