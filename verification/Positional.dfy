/** Replies whose signature block is an array: they have an envelope, and count as having none. */
module Positional {
  import opened Outcome
  import opened Message
  import opened Envelope
  import opened Pipeline
  import opened Request
  import opened Buildable
  import opened Enforcement
  import opened Serialized
  import Canonical
  import Jcs
  import RequestAcceptance
  import Signing

  const RESPONSE_NAMES: seq<string> :=
    ["version", "canonicalization_id", "request_hash", "server_signer", "issued_at", "signature"]

  /** A response's texts. */
  datatype ResponseTexts = ResponseTexts(requestHash: string, serverSigner: string, issuedAt: string, keyId: string, signature: string)

  function ArrayBlock(t: ResponseTexts): Value {
    Array([String(SIG_ALG_ED25519), String(t.keyId), String(t.signature)])
  }

  function ResponseEntries(t: ResponseTexts): seq<Entry> {
    [Entry(RESPONSE_NAMES[0], String(VERSION_DRAFT_02)),
     Entry(RESPONSE_NAMES[1], String(CANONICALIZATION_ID_INT53_V1)),
     Entry(RESPONSE_NAMES[2], String(t.requestHash)),
     Entry(RESPONSE_NAMES[3], String(t.serverSigner)),
     Entry(RESPONSE_NAMES[4], String(t.issuedAt)),
     Entry(RESPONSE_NAMES[5], ArrayBlock(t))]
  }

  /** A draft-02 response, its signature block written as an array. */
  function ArrayReply(id: Value, t: ResponseTexts): Value {
    Object([Entry("id", id), Entry("jsonrpc", String("2.0")),
            Entry("result", Object([Entry("_meta",
              Object([Entry(Signing.RESPONSE_META_KEY, Object(ResponseEntries(t)))]))]))])
  }

  lemma NamesHold(t: ResponseTexts)
    ensures Named(ResponseEntries(t), RESPONSE_NAMES) && Distinct(RESPONSE_NAMES)
  {
  }

  lemma ReplyEnvelope(id: Value, t: ResponseTexts)
    ensures LocateEnvelope(ArrayReply(id, t), Signing.Response) == Ok(Object(ResponseEntries(t)))
    ensures Get(ArrayReply(id, t), "id") == Some(id)
  {
    var es := ArrayReply(id, t).entries;
    FindAt(es, 0);
    FindAt(es, 2);
    FindAt(es[2].value.entries, 0);
    FindAt(es[2].value.entries[0].value.entries, 0);
  }

  lemma ReplyFields(t: ResponseTexts)
    ensures var raw := Object(ResponseEntries(t));
            && Get(raw, "version") == Some(String(VERSION_DRAFT_02))
            && Get(raw, "canonicalization_id") == Some(String(CANONICALIZATION_ID_INT53_V1))
            && Get(raw, "server_signer") == Some(String(t.serverSigner))
            && Get(raw, "signature") == Some(ArrayBlock(t))
  {
    var (es, names) := (ResponseEntries(t), RESPONSE_NAMES);
    NamesHold(t);
    FindNamed(es, names, 0);
    FindNamed(es, names, 1);
    FindNamed(es, names, 3);
    FindNamed(es, names, 5);
  }

  lemma ReplyKinds(i: nat)
    requires i < |RESPONSE_NAMES|
    ensures RESPONSE_NAMES[i] in DRAFT02_RESPONSE_FIELDS
    ensures DRAFT02_RESPONSE_FIELDS[RESPONSE_NAMES[i]] == if i == 5 then Kind.Signature else Text
  {
  }

  lemma ReplyFieldsNamed(key: string)
    requires key in DRAFT02_RESPONSE_FIELDS
    ensures key in RESPONSE_NAMES
  {
  }

  lemma ReplyShape(t: ResponseTexts)
    ensures CheckShape(Object(ResponseEntries(t)), DRAFT02_RESPONSE_FIELDS).Ok?
  {
    var es := ResponseEntries(t);
    NamesHold(t);
    forall i | 0 <= i < |es| ensures IsFieldOf(es[i], DRAFT02_RESPONSE_FIELDS) {
      ReplyKinds(i);
    }
    forall k | k in DRAFT02_RESPONSE_FIELDS ensures Find(es, k).Some? {
      ReplyFieldsNamed(k);
      var i :| 0 <= i < |RESPONSE_NAMES| && RESPONSE_NAMES[i] == k;
      FindNamed(es, RESPONSE_NAMES, i);
    }
    ShapeExactly(Object(es), DRAFT02_RESPONSE_FIELDS);
  }

  /** The reply reads as a well-formed response of its signer. */
  lemma ReplyExtracts(id: Value, t: ResponseTexts)
    ensures var env := ExtractDraft02Response(ArrayReply(id, t));
            && env.Ok?
            && env.value.response.serverSigner == t.serverSigner
            && env.value.response.signature == SignatureBlock(SIG_ALG_ED25519, t.keyId, Some(t.signature))
  {
    ReplyEnvelope(id, t);
    ReplyFields(t);
    ReplyShape(t);
  }

  lemma FineTexts(items: seq<Value>, depth: nat)
    requires depth < Jcs.MAX_PARSE_DEPTH && forall i :: 0 <= i < |items| ==> items[i].String?
    ensures Fine(Array(items), depth)
  {
    forall i | 0 <= i < |items| ensures Fine(items[i], depth + 1) {
      FineText(items[i].s, depth + 1);
    }
  }

  lemma ReplyEnvelopeFine(t: ResponseTexts)
    ensures Fine(Object(ResponseEntries(t)), 3)
  {
    var es := ResponseEntries(t);
    FineTexts(ArrayBlock(t).items, 4);
    NamesHold(t);
    NamedUnique(es, RESPONSE_NAMES);
    forall i | 0 <= i < |es| ensures Fine(es[i].value, 4) {
      if i != 5 {
        FineText(es[i].value.s, 4);
      }
    }
    FineObject(es, 3);
  }

  lemma FineMember(key: string, v: Value, depth: nat)
    requires depth < Jcs.MAX_PARSE_DEPTH && Fine(v, depth + 1)
    ensures Fine(Object([Entry(key, v)]), depth)
  {
    FineObject([Entry(key, v)], depth);
  }

  lemma FineReply(id: Value, result: Value)
    requires Fine(id, 1) && Fine(result, 1)
    ensures Fine(Object([Entry("id", id), Entry("jsonrpc", String("2.0")), Entry("result", result)]), 0)
  {
    FineText("2.0", 1);
    FineObject([Entry("id", id), Entry("jsonrpc", String("2.0")), Entry("result", result)], 0);
  }

  lemma ReplyFine(id: Value, t: ResponseTexts)
    requires Fine(id, 1)
    ensures Fine(ArrayReply(id, t), 0)
  {
    var envelope := Object(ResponseEntries(t));
    var meta := Object([Entry(Signing.RESPONSE_META_KEY, envelope)]);
    ReplyEnvelopeFine(t);
    FineMember(Signing.RESPONSE_META_KEY, envelope, 2);
    FineMember("_meta", meta, 1);
    FineReply(id, Object([Entry("_meta", meta)]));
  }

  lemma FineIsCanonical(v: Value)
    requires Fine(v, 0)
    ensures Canonical.Canonicalize(Compact(v)).Ok?
  {
    CompactParses(v);
    Canonical.CanonicalizeTotal(Compact(v));
  }

  /**
   * The rule that only an absent envelope is absence fails of the code, for every choice of
   * texts: a reply of a resolvable signer whose block is an array has an envelope, and a wire
   * text that means it, and is reported as having none; a migration route passes it through.
   */
  lemma ArrayBlockCountsAsAbsent(w: World, id: Value, t: ResponseTexts, resolver: Resolver, e: Expectation)
    returns (text: string, w': World)
    requires Fine(id, 1) && !id.Null? && resolver(t.serverSigner, t.keyId).Resolved?
    ensures RequestAcceptance.Carries(w', text, ArrayReply(id, t))
    ensures LocateEnvelope(ArrayReply(id, t), Signing.Response).Ok?
    ensures VerifySignedResponse(w', text, resolver, e) == Err(MissingEnvelope)
    ensures Decide(AllowLegacyExplicit, true, Classify(VerifySignedResponse(w', text, resolver, e))) == FallBackToLegacy(PlainUnsigned)
  {
    var reply := ArrayReply(id, t);
    ReplyFine(id, t);
    text := Compact(reply);
    w' := Decoding(w, text, reply);
    CompactMeans(reply);
    FineIsCanonical(reply);
    ReplyEnvelope(id, t);
    ReplyExtracts(id, t);
    ReplyFields(t);
    assert PositionalReply(w', text, resolver);
    MissingEnvelopeExactly(w', text, resolver, e);
  }
}
