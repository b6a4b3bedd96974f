/** Which envelopes are extracted, and with what verdict otherwise, told by the members of the located object. */
module Extraction {
  import opened Outcome
  import opened Message
  import opened Envelope
  import Signing

  // ----- Where an envelope is -----

  predicate RequestEnvelopeIs(msg: Value, raw: Value) {
    GetPath(msg, ["params", "_meta", "se.syncom/mcps.request"]) == Some(raw)
  }

  predicate ResponseEnvelopeIs(msg: Value, raw: Value) {
    GetPath(msg, ["result", "_meta", "se.syncom/mcps.response"]) == Some(raw)
  }

  lemma PathOfThree(msg: Value, a: string, b: string, c: string)
    ensures GetPath(msg, [a, b, c]) ==
            match Get(msg, a) case None => None case Some(x) =>
            match Get(x, b) case None => None case Some(y) => Get(y, c)
  {
    assert [a, b, c] == [a] + ([b] + ([c] + []));
    PathStep(msg, a, [b] + ([c] + []));
    if Get(msg, a).Some? {
      PathStep(Get(msg, a).value, b, [c] + []);
      if Get(Get(msg, a).value, b).Some? {
        PathStep(Get(Get(msg, a).value, b).value, c, []);
      }
    }
  }

  lemma Located(msg: Value, raw: Value)
    ensures LocateEnvelope(msg, Signing.Request) == Ok(raw) <==> RequestEnvelopeIs(msg, raw)
    ensures LocateEnvelope(msg, Signing.Response) == Ok(raw) <==> ResponseEnvelopeIs(msg, raw)
  {
    PathOfThree(msg, "params", "_meta", "se.syncom/mcps.request");
    PathOfThree(msg, "result", "_meta", "se.syncom/mcps.response");
  }

  /** Without an envelope there, that is the verdict of every extraction. */
  lemma NotLocated(msg: Value)
    ensures GetPath(msg, ["params", "_meta", "se.syncom/mcps.request"]).None? <==> LocateEnvelope(msg, Signing.Request) == Err(MissingEnvelope)
    ensures GetPath(msg, ["result", "_meta", "se.syncom/mcps.response"]).None? <==> LocateEnvelope(msg, Signing.Response) == Err(MissingEnvelope)
  {
    PathOfThree(msg, "params", "_meta", "se.syncom/mcps.request");
    PathOfThree(msg, "result", "_meta", "se.syncom/mcps.response");
  }

  // ----- What members an object has -----

  predicate TextIs(v: Value, key: string, s: string) {
    Get(v, key) == Some(String(s))
  }

  predicate HasText(v: Value, key: string) {
    Get(v, key).Some? && Get(v, key).value.String?
  }

  predicate HasNonEmptyText(v: Value, key: string) {
    HasText(v, key) && Get(v, key).value.s != ""
  }

  /** A signature block: named members, or their values in order. */
  predicate IsBlock(v: Value) {
    || (&& v.Array? && |v.items| == 3
        && v.items[0].String? && v.items[1].String? && (v.items[2].String? || v.items[2].Null?))
    || (&& v.Object? && HasText(v, "alg") && HasText(v, "key_id")
        && forall i :: 0 <= i < |v.entries| ==> IsBlockMember(v.entries[i]))
  }

  predicate IsBlockMember(e: Entry) {
    || (e.key == "alg" && e.value.String?)
    || (e.key == "key_id" && e.value.String?)
    || (e.key == "value" && (e.value.String? || e.value.Null?))
  }

  /** Reads as a binding of one of the two types. */
  predicate IsBinding(v: Value) {
    && HasText(v, "digest_alg") && HasText(v, "digest_value")
    && (|| TextIs(v, "binding_type", "opaque-bytes")
        || (&& TextIs(v, "binding_type", "authz-system-reference")
            && HasText(v, "authorization_system_id") && HasText(v, "reference_scheme_id") && HasText(v, "reference_value")))
  }

  /** One member of an envelope with these text fields, with or without a binding. */
  predicate IsEnvelopeMember(e: Entry, texts: set<string>, bound: bool) {
    || (e.key in texts && e.value.String?)
    || (e.key == "signature" && IsBlock(e.value))
    || (bound && e.key == "authorization_binding" && IsBinding(e.value))
  }

  /** The object has these text fields, a signature and perhaps a binding, and no other member. */
  predicate IsEnvelope(raw: Value, texts: set<string>, bound: bool) {
    && raw.Object?
    && (forall i :: 0 <= i < |raw.entries| ==> IsEnvelopeMember(raw.entries[i], texts, bound))
    && (forall k :: k in texts ==> Get(raw, k).Some?)
    && Get(raw, "signature").Some?
    && (bound ==> Get(raw, "authorization_binding").Some?)
  }

  const REQUEST_TEXTS: set<string> := {
    "version", "signer", "on_behalf_of", "audience", "authorization_hash", "nonce", "issued_at", "expires_at"}
  const DRAFT02_REQUEST_TEXTS: set<string> := {
    "version", "canonicalization_id", "signer", "on_behalf_of", "audience", "nonce", "issued_at", "expires_at"}
  const RESPONSE_TEXTS: set<string> := {"request_hash", "server_signer", "issued_at"}
  const DRAFT02_RESPONSE_TEXTS: set<string> := {
    "version", "canonicalization_id", "request_hash", "server_signer", "issued_at"}

  // ----- The code's shape check is that -----

  lemma {:induction false} FoundEntry(es: seq<Entry>, key: string) returns (i: nat)
    requires Find(es, key).Some?
    ensures i < |es| && es[i] == Entry(key, Find(es, key).value)
  {
    if es[0].key == key {
      i := 0;
    } else {
      i := FoundEntry(es[1..], key);
      i := i + 1;
    }
  }

  lemma BlockExactly(v: Value)
    ensures IsOfKind(v, Kind.Signature) <==> IsBlock(v)
  {
    if v.Object? {
      forall i | 0 <= i < |v.entries| ensures IsSignatureEntry(v.entries[i]) <==> IsBlockMember(v.entries[i]) {
        var names := SIGNATURE_FIELDS;
        assert names[0] == "alg" && names[1] == "key_id" && names[2] == "value";
      }
      NamedText(v, "alg");
      NamedText(v, "key_id");
    }
  }

  lemma NamedText(v: Value, key: string)
    requires v.Object? && (key == "alg" || key == "key_id")
    ensures Get(v, key).Some? && (forall i :: 0 <= i < |v.entries| ==> IsBlockMember(v.entries[i])) ==> HasText(v, key)
  {
    if Get(v, key).Some? {
      var i := FoundEntry(v.entries, key);
    }
  }

  lemma BindingExactly(v: Value)
    ensures ReadBinding(v).Some? <==> IsBinding(v)
  {
  }

  /** The field map lists these texts, the signature, and the binding if there is one. */
  ghost predicate Lists(fields: map<string, Kind>, texts: set<string>, bound: bool) {
    forall k :: ListsKey(k, fields, texts, bound)
  }

  predicate ListsKey(k: string, fields: map<string, Kind>, texts: set<string>, bound: bool) {
    && (k in fields && fields[k] == Text <==> k in texts)
    && (k in fields && fields[k] == Kind.Signature <==> k == "signature")
    && (k in fields && fields[k] == Kind.Binding <==> bound && k == "authorization_binding")
  }

  lemma MemberExactly(e: Entry, fields: map<string, Kind>, texts: set<string>, bound: bool)
    requires Lists(fields, texts, bound)
    ensures IsFieldOf(e, fields) <==> IsEnvelopeMember(e, texts, bound)
  {
    BlockExactly(e.value);
    BindingExactly(e.value);
    assert ListsKey(e.key, fields, texts, bound);
  }

  lemma EnvelopeExactly(raw: Value, fields: map<string, Kind>, texts: set<string>, bound: bool)
    requires Lists(fields, texts, bound)
    ensures CheckShape(raw, fields).Ok? <==> IsEnvelope(raw, texts, bound)
  {
    ShapeExactly(raw, fields);
    if raw.Object? {
      forall i | 0 <= i < |raw.entries|
        ensures IsFieldOf(raw.entries[i], fields) <==> IsEnvelopeMember(raw.entries[i], texts, bound)
      {
        MemberExactly(raw.entries[i], fields, texts, bound);
      }
      PresenceExactly(raw, fields, texts, bound);
    }
  }

  lemma PresenceExactly(raw: Value, fields: map<string, Kind>, texts: set<string>, bound: bool)
    requires Lists(fields, texts, bound)
    ensures (forall k :: k in fields ==> Get(raw, k).Some?) <==>
            && (forall k :: k in texts ==> Get(raw, k).Some?)
            && Get(raw, "signature").Some? && (bound ==> Get(raw, "authorization_binding").Some?)
  {
    if forall k :: k in fields ==> Get(raw, k).Some? {
      assert ListsKey("signature", fields, texts, bound) && ListsKey("authorization_binding", fields, texts, bound);
      forall k | k in texts ensures Get(raw, k).Some? {
        assert ListsKey(k, fields, texts, bound);
      }
    }
    if (forall k :: k in texts ==> Get(raw, k).Some?) && Get(raw, "signature").Some? && (bound ==> Get(raw, "authorization_binding").Some?) {
      forall k | k in fields ensures Get(raw, k).Some? {
        assert ListsKey(k, fields, texts, bound);
      }
    }
  }

  lemma CommonLists(k: string)
    ensures k in COMMON_FIELDS <==> k in REQUEST_TEXTS - {"authorization_hash"} + {"signature"}
    ensures k in COMMON_FIELDS ==> COMMON_FIELDS[k] == if k == "signature" then Kind.Signature else Text
  {
  }

  lemma RequestLists()
    ensures Lists(REQUEST_FIELDS, REQUEST_TEXTS, false)
  {
    forall k ensures ListsKey(k, REQUEST_FIELDS, REQUEST_TEXTS, false) {
      CommonLists(k);
    }
  }

  lemma Draft02RequestLists()
    ensures Lists(DRAFT02_REQUEST_FIELDS, DRAFT02_REQUEST_TEXTS, true)
  {
    forall k ensures ListsKey(k, DRAFT02_REQUEST_FIELDS, DRAFT02_REQUEST_TEXTS, true) {
      CommonLists(k);
    }
  }

  lemma ResponseLists()
    ensures Lists(RESPONSE_FIELDS, RESPONSE_TEXTS, false)
  {
  }

  lemma Draft02ResponseLists()
    ensures Lists(DRAFT02_RESPONSE_FIELDS, DRAFT02_RESPONSE_TEXTS, false)
  {
  }

  // ----- Exactly these members -----

  /** The object has exactly these members, each once and each a non-empty text. */
  predicate HasExactly(v: Value, names: set<string>) {
    && v.Object? && UniqueNames(v.entries)
    && (forall i :: 0 <= i < |v.entries| ==> v.entries[i].key in names)
    && (forall k :: k in names ==> HasNonEmptyText(v, k))
  }

  ghost function SetOf(s: seq<string>): set<string> {
    set x | x in s
  }

  lemma {:induction false} SetSize(s: seq<string>)
    ensures |SetOf(s)| <= |s| && (|SetOf(s)| == |s| <==> Distinct(s))
  {
    if s != [] {
      var (rest, x) := (s[1..], s[0]);
      SetSize(rest);
      assert s == [x] + rest;
      assert SetOf(s) == SetOf(rest) + {x};
      if x in rest {
        assert SetOf(s) == SetOf(rest);
        var i :| 0 <= i < |rest| && rest[i] == x;
        assert s[i + 1] == s[0];
      } else {
        assert Distinct(s) <==> Distinct(rest) by {
          assert forall i :: 0 < i < |s| ==> s[i] == rest[i - 1];
          assert forall i :: 0 <= i < |rest| ==> rest[i] == s[i + 1];
        }
      }
    }
  }

  lemma SubsetSize(a: set<string>, b: set<string>)
    requires a <= b
    ensures |a| <= |b| && (|a| == |b| ==> a == b)
  {
    assert b == a + (b - a) && a !! (b - a);
  }

  function KeysOf(es: seq<Entry>): (ks: seq<string>)
    ensures |ks| == |es| && forall i :: 0 <= i < |es| ==> ks[i] == es[i].key
  {
    if es == [] then [] else [es[0].key] + KeysOf(es[1..])
  }

  predicate Within(keys: seq<string>, names: seq<string>) {
    forall i :: 0 <= i < |keys| ==> keys[i] in names
  }

  lemma WithinSets(keys: seq<string>, names: seq<string>)
    ensures Within(keys, names) <==> SetOf(keys) <= SetOf(names)
  {
    if SetOf(keys) <= SetOf(names) {
      forall i | 0 <= i < |keys| ensures keys[i] in names {
        assert keys[i] in SetOf(keys);
      }
    }
  }

  lemma KeysDecide(keys: seq<string>, names: seq<string>)
    requires Distinct(names) && Within(names, keys)
    ensures |keys| == |names| <==> Distinct(keys) && Within(keys, names)
  {
    SetSize(keys);
    SetSize(names);
    WithinSets(names, keys);
    WithinSets(keys, names);
    SubsetSize(SetOf(names), SetOf(keys));
    if |keys| == |names| {
      assert SetOf(keys) == SetOf(names);
    }
    if Distinct(keys) && Within(keys, names) {
      assert SetOf(keys) == SetOf(names);
    }
  }

  /** Counting members finds exactly the required ones, when they are all there. */
  lemma CountDecides(es: seq<Entry>, names: seq<string>)
    requires Distinct(names) && forall k :: k in names ==> Find(es, k).Some?
    ensures |es| == |names| <==> UniqueNames(es) && forall i :: 0 <= i < |es| ==> es[i].key in names
  {
    var keys := KeysOf(es);
    forall j | 0 <= j < |names| ensures names[j] in keys {
      var i := FoundEntry(es, names[j]);
      assert keys[i] == names[j];
    }
    KeysDecide(keys, names);
  }

  lemma NonEmptyExactly(v: Value, key: string)
    ensures HasNonEmptyText(v, key) <==> GetString(v, key).Some? && GetString(v, key).value != ""
  {
  }

  lemma FieldsExactly(v: Value, names: seq<string>)
    requires v.Object? && Distinct(names)
    ensures |v.entries| == |names| && NonEmptyTexts(v, names) <==> HasExactly(v, set k | k in names)
  {
    forall k ensures HasNonEmptyText(v, k) <==> GetString(v, k).Some? && GetString(v, k).value != "" {
      NonEmptyExactly(v, k);
    }
    if forall k :: k in names ==> HasNonEmptyText(v, k) {
      CountDecides(v.entries, names);
    }
  }

  // ----- The binding -----

  const OPAQUE_MEMBERS: set<string> := {"binding_type", "digest_alg", "digest_value"}
  const REFERENCE_MEMBERS: set<string> := {"binding_type", "digest_alg", "digest_value",
                                           "authorization_system_id", "reference_scheme_id", "reference_value"}

  /** An object of one of the two types, with exactly that type's members and the one digest algorithm. */
  predicate IsProperBinding(v: Value) {
    && (|| (TextIs(v, "binding_type", "opaque-bytes") && HasExactly(v, OPAQUE_MEMBERS))
        || (TextIs(v, "binding_type", "authz-system-reference") && HasExactly(v, REFERENCE_MEMBERS)))
    && TextIs(v, "digest_alg", "sha256")
  }

  lemma RequiredMembers()
    ensures Distinct(OPAQUE_FIELDS) && (set k | k in OPAQUE_FIELDS) == OPAQUE_MEMBERS
    ensures Distinct(REFERENCE_FIELDS) && (set k | k in REFERENCE_FIELDS) == REFERENCE_MEMBERS
  {
  }

  /** An opaque binding with exactly its members has no reference member. */
  lemma OpaqueHasNoReference(v: Value, k: string)
    requires HasExactly(v, OPAQUE_MEMBERS) && k !in OPAQUE_MEMBERS
    ensures Get(v, k).None?
  {
    if Get(v, k).Some? {
      var _ := FoundEntry(v.entries, k);
      assert false;
    }
  }

  lemma OpaqueIsUnambiguous(v: Value)
    requires HasExactly(v, OPAQUE_MEMBERS)
    ensures forall k :: k in REFERENCE_ONLY ==> Get(v, k).None?
  {
    forall k | k in REFERENCE_ONLY ensures Get(v, k).None? {
      OpaqueHasNoReference(v, k);
    }
  }

  lemma FieldCheckExactly(v: Value, names: seq<string>)
    requires v.Object? && Distinct(names)
    ensures CheckBindingFields(v, names).Ok? <==> HasExactly(v, set k | k in names) && TextIs(v, "digest_alg", "sha256")
  {
    FieldsExactly(v, names);
  }

  lemma OpaqueCheckExactly(v: Value)
    requires v.Object? && GetString(v, "binding_type") == Some("opaque-bytes")
    ensures CheckBinding(v).Ok? <==> HasExactly(v, OPAQUE_MEMBERS) && TextIs(v, "digest_alg", "sha256")
  {
    RequiredMembers();
    FieldCheckExactly(v, OPAQUE_FIELDS);
    if HasExactly(v, OPAQUE_MEMBERS) {
      OpaqueIsUnambiguous(v);
    }
  }

  lemma ReferenceCheckExactly(v: Value)
    requires v.Object? && GetString(v, "binding_type") == Some("authz-system-reference")
    ensures CheckBinding(v).Ok? <==> HasExactly(v, REFERENCE_MEMBERS) && TextIs(v, "digest_alg", "sha256")
  {
    RequiredMembers();
    FieldCheckExactly(v, REFERENCE_FIELDS);
  }

  /** The structural check passes exactly on proper bindings. */
  lemma BindingCheckExactly(v: Value)
    ensures CheckBinding(v).Ok? <==> IsProperBinding(v)
  {
    if v.Object? {
      if GetString(v, "binding_type") == Some("opaque-bytes") {
        OpaqueCheckExactly(v);
      } else if GetString(v, "binding_type") == Some("authz-system-reference") {
        ReferenceCheckExactly(v);
      }
    }
  }

  // ----- Draft-02 selectors -----

  /** The verdict on the selectors: version, canonicalization, then the binding. */
  function SelectorVerdict(raw: Value): Result<()> {
    if !TextIs(raw, "version", "draft-02") then Err(UnsupportedVersion)
    else if !HasText(raw, "canonicalization_id") then Err(CanonicalizationIdMissing)
    else if !TextIs(raw, "canonicalization_id", "mcps-jcs-int53-json-v1") then Err(CanonicalizationIdUnknown)
    else if Get(raw, "authorization_binding").None? then Err(AuthorizationBindingMissing)
    else BindingVerdict(Get(raw, "authorization_binding").value)
  }

  function BindingVerdict(v: Value): Result<()> {
    if !v.Object? || !HasText(v, "binding_type") then Err(AuthorizationBindingMalformed)
    else if !TextIs(v, "binding_type", "opaque-bytes") && !TextIs(v, "binding_type", "authz-system-reference")
    then Err(AuthorizationBindingTypeUnsupported)
    else if TextIs(v, "binding_type", "opaque-bytes") && HasReferenceMember(v) then Err(AuthorizationBindingAmbiguousBytes)
    else if IsProperBinding(v) then Ok(())
    else Err(AuthorizationBindingMalformed)
  }

  predicate HasReferenceMember(v: Value) {
    || Get(v, "authorization_system_id").Some?
    || Get(v, "reference_scheme_id").Some?
    || Get(v, "reference_value").Some?
  }

  lemma ReferenceMembers(v: Value)
    ensures (exists k | k in REFERENCE_ONLY :: Get(v, k).Some?) <==> HasReferenceMember(v)
  {
    var names := REFERENCE_ONLY;
    assert names[0] in names && names[1] in names && names[2] in names;
  }

  lemma TypedText(v: Value, key: string, s: string)
    ensures TextIs(v, key, s) <==> GetString(v, key) == Some(s)
    ensures HasText(v, key) <==> GetString(v, key).Some?
  {
  }

  lemma FieldErrors(v: Value, names: seq<string>)
    requires v.Object? && CheckBindingFields(v, names).Err?
    ensures CheckBindingFields(v, names) == Err(AuthorizationBindingMalformed)
  {
  }

  lemma BindingVerdictExactly(v: Value)
    ensures CheckBinding(v) == BindingVerdict(v)
  {
    BindingCheckExactly(v);
    ReferenceMembers(v);
    if v.Object? {
      BindingErrors(v);
    }
  }

  lemma BindingErrors(v: Value)
    requires v.Object?
    ensures CheckBinding(v).Err? ==>
            CheckBinding(v).error ==
            if GetString(v, "binding_type").None? then AuthorizationBindingMalformed
            else if GetString(v, "binding_type") == Some("opaque-bytes") then
              if exists k | k in REFERENCE_ONLY :: Get(v, k).Some? then AuthorizationBindingAmbiguousBytes else AuthorizationBindingMalformed
            else if GetString(v, "binding_type") == Some("authz-system-reference") then AuthorizationBindingMalformed
            else AuthorizationBindingTypeUnsupported
  {
    if CheckBindingFields(v, OPAQUE_FIELDS).Err? {
      FieldErrors(v, OPAQUE_FIELDS);
    }
    if CheckBindingFields(v, REFERENCE_FIELDS).Err? {
      FieldErrors(v, REFERENCE_FIELDS);
    }
  }

  lemma SchemeExactly(raw: Value)
    ensures CheckCanonicalizationId(raw) ==
            if !HasText(raw, "canonicalization_id") then Err(CanonicalizationIdMissing)
            else if !TextIs(raw, "canonicalization_id", "mcps-jcs-int53-json-v1") then Err(CanonicalizationIdUnknown)
            else Ok(())
  {
  }

  /** The selectors are judged member by member, in that order. */
  lemma SelectorsExactly(raw: Value)
    ensures CheckSelectors(raw) == SelectorVerdict(raw)
  {
    SchemeExactly(raw);
    TypedText(raw, "version", "draft-02");
    if Get(raw, "authorization_binding").Some? {
      BindingVerdictExactly(Get(raw, "authorization_binding").value);
    }
  }

  lemma SelectorsPass(raw: Value)
    ensures SelectorVerdict(raw).Ok? <==>
            && TextIs(raw, "version", "draft-02") && TextIs(raw, "canonicalization_id", "mcps-jcs-int53-json-v1")
            && Get(raw, "authorization_binding").Some? && IsProperBinding(Get(raw, "authorization_binding").value)
  {
    if Get(raw, "authorization_binding").Some? {
      var v := Get(raw, "authorization_binding").value;
      BindingVerdictExactly(v);
      BindingCheckExactly(v);
    }
  }

  // ----- Which envelopes are extracted -----

  predicate IsDraft01Request(raw: Value) {
    IsEnvelope(raw, REQUEST_TEXTS, false) && TextIs(raw, "version", "draft-01")
  }

  predicate IsDraft02Request(raw: Value) {
    && IsEnvelope(raw, DRAFT02_REQUEST_TEXTS, true)
    && TextIs(raw, "version", "draft-02")
    && TextIs(raw, "canonicalization_id", "mcps-jcs-int53-json-v1")
    && IsProperBinding(Get(raw, "authorization_binding").value)
  }

  predicate IsDraft02Response(raw: Value) {
    && IsEnvelope(raw, DRAFT02_RESPONSE_TEXTS, false)
    && TextIs(raw, "version", "draft-02")
    && TextIs(raw, "canonicalization_id", "mcps-jcs-int53-json-v1")
  }

  lemma {:induction false} TypedMember(raw: Value, texts: set<string>, bound: bool, key: string)
    requires IsEnvelope(raw, texts, bound) && key in texts && key != "signature" && key != "authorization_binding"
    ensures TextIs(raw, key, TextOf(raw, key))
  {
    var _ := FoundEntry(raw.entries, key);
  }

  /** Draft-01 extracts exactly the envelopes of its shape and version. */
  lemma RequestExactly(msg: Value, raw: Value)
    requires RequestEnvelopeIs(msg, raw)
    ensures ExtractRequest(msg).Ok? <==> IsDraft01Request(raw)
  {
    Located(msg, raw);
    RequestLists();
    EnvelopeExactly(raw, REQUEST_FIELDS, REQUEST_TEXTS, false);
    if IsEnvelope(raw, REQUEST_TEXTS, false) {
      TypedMember(raw, REQUEST_TEXTS, false, "version");
    }
  }

  /** Draft-01 judges an envelope in this order: unknown member first, then the two members with a report of their own, shape, version. */
  lemma RequestVerdicts(msg: Value, raw: Value)
    requires RequestEnvelopeIs(msg, raw)
    ensures var r := ExtractRequest(msg);
            if raw.Object? && EntriesProblem(raw.entries, REQUEST_FIELDS) == Some(UnknownEnvelopeField)
            then r == Err(UnknownEnvelopeField)
            else if raw.Object? && Get(raw, "authorization_hash").None? then r == Err(AuthorizationHashMissing)
            else if raw.Object? && Get(raw, "on_behalf_of").None? then r == Err(OnBehalfOfMissing)
            else if !IsEnvelope(raw, REQUEST_TEXTS, false) then r == Err(CanonicalizationFailed)
            else if !TextIs(raw, "version", "draft-01") then r == Err(UnsupportedVersion)
            else r.Ok?
  {
    Located(msg, raw);
    RequestLists();
    EnvelopeExactly(raw, REQUEST_FIELDS, REQUEST_TEXTS, false);
    ShapeErrors(raw, REQUEST_FIELDS);
    if IsEnvelope(raw, REQUEST_TEXTS, false) {
      TypedMember(raw, REQUEST_TEXTS, false, "version");
    }
  }

  lemma DeserializesExactly(raw: Value)
    ensures DeserializeDraft02(raw).Ok? <==> IsEnvelope(raw, DRAFT02_REQUEST_TEXTS, true) && IsBinding(Get(raw, "authorization_binding").value)
  {
    Draft02RequestLists();
    EnvelopeExactly(raw, DRAFT02_REQUEST_FIELDS, DRAFT02_REQUEST_TEXTS, true);
    if Get(raw, "authorization_binding").Some? {
      BindingExactly(Get(raw, "authorization_binding").value);
    }
  }

  lemma ProperReads(v: Value)
    requires IsProperBinding(v)
    ensures IsBinding(v)
  {
    var o, r := OPAQUE_MEMBERS, REFERENCE_MEMBERS;
    assert "digest_value" in o && "digest_value" in r;
    assert "authorization_system_id" in r && "reference_scheme_id" in r && "reference_value" in r;
    assert HasNonEmptyText(v, "digest_value");
  }

  /** Draft-02 extracts exactly the envelopes of its shape whose selectors and binding are in order; a bad selector decides the verdict. */
  lemma Draft02RequestExactly(msg: Value, raw: Value)
    requires RequestEnvelopeIs(msg, raw)
    ensures ExtractDraft02Request(msg).Ok? <==> IsDraft02Request(raw)
    ensures SelectorVerdict(raw).Err? ==> ExtractDraft02Request(msg) == Err(SelectorVerdict(raw).error)
  {
    Located(msg, raw);
    SelectorsExactly(raw);
    SelectorsPass(raw);
    DeserializesExactly(raw);
    if Get(raw, "authorization_binding").Some? && IsProperBinding(Get(raw, "authorization_binding").value) {
      ProperReads(Get(raw, "authorization_binding").value);
    }
  }

  lemma ResponseExactly(msg: Value, raw: Value)
    requires ResponseEnvelopeIs(msg, raw)
    ensures ExtractResponse(msg).Ok? <==> IsEnvelope(raw, RESPONSE_TEXTS, false)
    ensures ExtractResponse(msg).Ok? ==> ExtractResponse(msg).value == ReadResponse(raw)
  {
    Located(msg, raw);
    ResponseLists();
    EnvelopeExactly(raw, RESPONSE_FIELDS, RESPONSE_TEXTS, false);
  }

  /** The same for responses: version and canonicalization are judged first, then the shape. */
  lemma Draft02ResponseExactly(msg: Value, raw: Value)
    requires ResponseEnvelopeIs(msg, raw)
    ensures ExtractDraft02Response(msg).Ok? <==> IsDraft02Response(raw)
    ensures ExtractDraft02Response(msg).Ok? ==>
            ExtractDraft02Response(msg).value == Draft02ResponseEnvelope("draft-02", "mcps-jcs-int53-json-v1", ReadResponse(raw))
    ensures !TextIs(raw, "version", "draft-02") ==> ExtractDraft02Response(msg) == Err(UnsupportedVersion)
    ensures TextIs(raw, "version", "draft-02") && !HasText(raw, "canonicalization_id") ==>
            ExtractDraft02Response(msg) == Err(CanonicalizationIdMissing)
    ensures TextIs(raw, "version", "draft-02") && HasText(raw, "canonicalization_id") &&
            !TextIs(raw, "canonicalization_id", "mcps-jcs-int53-json-v1") ==>
            ExtractDraft02Response(msg) == Err(CanonicalizationIdUnknown)
  {
    Located(msg, raw);
    SchemeExactly(raw);
    TypedText(raw, "version", "draft-02");
    Draft02ResponseLists();
    EnvelopeExactly(raw, DRAFT02_RESPONSE_FIELDS, DRAFT02_RESPONSE_TEXTS, false);
  }

  // ----- What is read from them -----

  /** The block's algorithm, key id and signature, by name or by place. */
  predicate BlockReads(v: Value, block: SignatureBlock) {
    if v.Array? then
      && |v.items| == 3 && v.items[0] == String(block.alg) && v.items[1] == String(block.keyId)
      && (if block.value.Some? then v.items[2] == String(block.value.value) else v.items[2].Null?)
    else
      && TextIs(v, "alg", block.alg) && TextIs(v, "key_id", block.keyId)
      && (if block.value.Some? then TextIs(v, "value", block.value.value)
          else Get(v, "value").None? || Get(v, "value").value.Null?)
  }

  lemma BlockRead(v: Value)
    requires IsBlock(v)
    ensures BlockReads(v, ReadBlock(v))
  {
    if v.Object? && Get(v, "value").Some? {
      var i := FoundEntry(v.entries, "value");
      assert IsBlockMember(v.entries[i]);
    }
  }

  lemma SignatureRead(raw: Value, texts: set<string>, bound: bool)
    requires IsEnvelope(raw, texts, bound) && "signature" !in texts
    ensures BlockReads(Get(raw, "signature").value, ReadSignature(raw))
  {
    var i := FoundEntry(raw.entries, "signature");
    assert IsEnvelopeMember(raw.entries[i], texts, bound);
    BlockRead(Get(raw, "signature").value);
  }

  predicate CommonReads(raw: Value, env: Common) {
    && TextIs(raw, "version", env.version) && TextIs(raw, "signer", env.signer)
    && TextIs(raw, "on_behalf_of", env.onBehalfOf) && TextIs(raw, "audience", env.audience)
    && TextIs(raw, "nonce", env.nonce) && TextIs(raw, "issued_at", env.issuedAt) && TextIs(raw, "expires_at", env.expiresAt)
    && Get(raw, "signature").Some? && BlockReads(Get(raw, "signature").value, env.signature)
  }

  const COMMON_NAMES: seq<string> := ["version", "signer", "on_behalf_of", "audience", "nonce", "issued_at", "expires_at"]

  lemma CommonRead(raw: Value, texts: set<string>, bound: bool)
    requires IsEnvelope(raw, texts, bound) && "signature" !in texts && "authorization_binding" !in texts
    requires forall i :: 0 <= i < |COMMON_NAMES| ==> COMMON_NAMES[i] in texts
    ensures CommonReads(raw, ReadCommon(raw))
  {
    var names := COMMON_NAMES;
    forall i | 0 <= i < |names| ensures TextIs(raw, names[i], TextOf(raw, names[i])) {
      TypedMember(raw, texts, bound, names[i]);
    }
    assert TextIs(raw, names[0], TextOf(raw, names[0])) && TextIs(raw, names[1], TextOf(raw, names[1]));
    assert TextIs(raw, names[2], TextOf(raw, names[2])) && TextIs(raw, names[3], TextOf(raw, names[3]));
    assert TextIs(raw, names[4], TextOf(raw, names[4])) && TextIs(raw, names[5], TextOf(raw, names[5]));
    assert TextIs(raw, names[6], TextOf(raw, names[6]));
    SignatureRead(raw, texts, bound);
  }

  predicate ResponseReads(raw: Value, env: ResponseEnvelope) {
    && TextIs(raw, "request_hash", env.requestHash) && TextIs(raw, "server_signer", env.serverSigner)
    && TextIs(raw, "issued_at", env.issuedAt)
    && Get(raw, "signature").Some? && BlockReads(Get(raw, "signature").value, env.signature)
  }

  /** The texts of a response, in either profile. */
  predicate OfResponse(texts: set<string>) {
    RESPONSE_TEXTS <= texts && "signature" !in texts && "authorization_binding" !in texts
  }

  lemma ResponseTexts()
    ensures OfResponse(RESPONSE_TEXTS) && OfResponse(DRAFT02_RESPONSE_TEXTS)
  {
  }

  lemma ResponseRead(raw: Value, texts: set<string>)
    requires IsEnvelope(raw, texts, false) && OfResponse(texts)
    ensures ResponseReads(raw, ReadResponse(raw))
  {
    var own := RESPONSE_TEXTS;
    assert "request_hash" in own && "server_signer" in own && "issued_at" in own;
    TypedMember(raw, texts, false, "request_hash");
    TypedMember(raw, texts, false, "server_signer");
    TypedMember(raw, texts, false, "issued_at");
    SignatureRead(raw, texts, false);
  }

  /** The binding states these texts. */
  predicate BindingReads(v: Value, b: AuthorizationBinding) {
    && TextIs(v, "digest_alg", b.digestAlg) && TextIs(v, "digest_value", b.digestValue)
    && match b
       case OpaqueBytes(_, _) => TextIs(v, "binding_type", "opaque-bytes")
       case AuthzSystemReference(sys, scheme, reference, _, _) =>
         && TextIs(v, "binding_type", "authz-system-reference") && TextIs(v, "authorization_system_id", sys)
         && TextIs(v, "reference_scheme_id", scheme) && TextIs(v, "reference_value", reference)
  }

  lemma BindingRead(v: Value)
    requires ReadBinding(v).Some?
    ensures BindingReads(v, ReadBinding(v).value)
  {
  }
}
