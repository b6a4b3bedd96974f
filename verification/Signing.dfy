/** The signing preimage: the whole message without four enumerated members, in canonical form. */
module Signing {
  import opened Outcome
  import opened Message
  import Jcs
  import Canonical

  const REQUEST_META_KEY: string := "se.syncom/mcps.request"
  const RESPONSE_META_KEY: string := "se.syncom/mcps.response"
  const OBSERVABILITY_META_KEYS: seq<string> := ["traceparent", "tracestate", "baggage"]

  datatype Location = Request | Response

  function ContainerKey(loc: Location): string {
    if loc.Request? then "params" else "result"
  }

  function MetaKey(loc: Location): string {
    if loc.Request? then REQUEST_META_KEY else RESPONSE_META_KEY
  }

  // ----- The code's own steps -----

  function CanonicalizeJson(v: Value): Result<string> {
    match ToJcs(v, 0)
    case None => Err(CanonicalizationFailed)
    case Some(j) => Canonical.CanonicalizeValue(j)
  }

  function StripSignatureValue(v: Value, loc: Location): Result<Value> {
    var container :- OkOr(Get(v, ContainerKey(loc)), MissingEnvelope);
    var meta :- OkOr(Get(container, "_meta"), MissingEnvelope);
    var envelope :- OkOr(Get(meta, MetaKey(loc)), MissingEnvelope);
    var signature :- OkOr(Get(envelope, "signature"), MissingEnvelope);
    if !signature.Object? then Err(MissingEnvelope)
    else
      var stripped := Object(Remove(signature.entries, "value"));
      var envelope' := Object(Put(envelope.entries, "signature", stripped));
      var meta' := Object(Put(meta.entries, MetaKey(loc), envelope'));
      var container' := Object(Put(container.entries, "_meta", meta'));
      Ok(Object(Put(v.entries, ContainerKey(loc), container')))
  }

  function RemoveKeys(es: seq<Entry>, keys: seq<string>): seq<Entry>
    decreases keys
  {
    if keys == [] then es else RemoveKeys(Remove(es, keys[0]), keys[1..])
  }

  function StripObservabilityMeta(v: Value, loc: Location): Value {
    match Get(v, ContainerKey(loc))
    case None => v
    case Some(container) =>
      match Get(container, "_meta")
      case Some(Object(es)) => WithMeta(v, loc, container, RemoveKeys(es, OBSERVABILITY_META_KEYS))
      case _ => v
  }

  /** `v` with the `_meta` entries of its container replaced. */
  function WithMeta(v: Value, loc: Location, container: Value, es: seq<Entry>): Value
    requires v.Object? && container.Object?
  {
    Object(Put(v.entries, ContainerKey(loc), Object(Put(container.entries, "_meta", Object(es)))))
  }

  function SigningPreimage(v: Value, loc: Location): Result<string> {
    var stripped :- StripSignatureValue(v, loc);
    CanonicalizeJson(StripObservabilityMeta(stripped, loc))
  }

  method StripTraceKeys(v: Value, loc: Location) returns (r: Value)
    ensures r == StripObservabilityMeta(v, loc)
  {
    var container := Get(v, ContainerKey(loc));
    if container == None {
      return v;
    }
    var meta := Get(container.value, "_meta");
    if meta == None || !meta.value.Object? {
      return v;
    }
    var es := meta.value.entries;
    var keys := OBSERVABILITY_META_KEYS;
    for i := 0 to |keys|
      invariant RemoveKeys(es, keys[i..]) == RemoveKeys(meta.value.entries, keys)
    {
      assert keys[i..][1..] == keys[i+1..];
      es := Remove(es, keys[i]);
    }
    r := WithMeta(v, loc, container.value, es);
  }

  method BuildPreimage(message: Value, loc: Location) returns (r: Result<string>)
    ensures r == SigningPreimage(message, loc)
  {
    var cloned :- StripSignatureValue(message, loc);
    cloned := StripTraceKeys(cloned, loc);
    var jcs := FromSerdeValue(cloned, 0);
    if jcs == None {
      return Err(CanonicalizationFailed);
    }
    r := Canonical.EmitValue(jcs.value);
  }

  // ----- The exclusion paths -----

  function SignaturePath(loc: Location): seq<string> {
    [ContainerKey(loc), "_meta", MetaKey(loc), "signature"]
  }

  function TracePath(loc: Location, key: string): seq<string> {
    [ContainerKey(loc), "_meta", key]
  }

  function TracePaths(loc: Location, keys: seq<string>): (ps: seq<seq<string>>)
    ensures |ps| == |keys| && forall i :: 0 <= i < |ps| ==> ps[i] == TracePath(loc, keys[i])
  {
    if keys == [] then [] else [TracePath(loc, keys[0])] + TracePaths(loc, keys[1..])
  }

  /** The four members that are not signed: one signature value and three trace keys. */
  function ExclusionPaths(loc: Location): seq<seq<string>> {
    [SignaturePath(loc) + ["value"]] + TracePaths(loc, OBSERVABILITY_META_KEYS)
  }

  /** They are these, in requests and in responses. */
  lemma ExclusionPathsAre()
    ensures ExclusionPaths(Request) == [
              ["params", "_meta", "se.syncom/mcps.request", "signature", "value"],
              ["params", "_meta", "traceparent"], ["params", "_meta", "tracestate"], ["params", "_meta", "baggage"]]
    ensures ExclusionPaths(Response) == [
              ["result", "_meta", "se.syncom/mcps.response", "signature", "value"],
              ["result", "_meta", "traceparent"], ["result", "_meta", "tracestate"], ["result", "_meta", "baggage"]]
  {
    LiteralPaths(Request);
    LiteralPaths(Response);
  }

  lemma LiteralPaths(loc: Location)
    ensures ExclusionPaths(loc) == [
              [ContainerKey(loc), "_meta", MetaKey(loc), "signature", "value"],
              [ContainerKey(loc), "_meta", "traceparent"], [ContainerKey(loc), "_meta", "tracestate"],
              [ContainerKey(loc), "_meta", "baggage"]]
  {
    var keys := OBSERVABILITY_META_KEYS;
    var traces := TracePaths(loc, keys);
    assert keys[0] == "traceparent" && keys[1] == "tracestate" && keys[2] == "baggage" && |keys| == 3;
    assert traces == [TracePath(loc, keys[0]), TracePath(loc, keys[1]), TracePath(loc, keys[2])];
    var first := SignaturePath(loc) + ["value"];
    assert first == [ContainerKey(loc), "_meta", MetaKey(loc), "signature", "value"];
    assert [first] + traces == [first, traces[0], traces[1], traces[2]];
  }

  method PreimageExclusionPaths(loc: Location) returns (paths: seq<seq<string>>)
    ensures paths == ExclusionPaths(loc)
  {
    var container := ContainerKey(loc);
    paths := [[container, "_meta", MetaKey(loc), "signature", "value"]];
    assert paths[0] == SignaturePath(loc) + ["value"];
    var keys := OBSERVABILITY_META_KEYS;
    for i := 0 to |keys|
      invariant paths == ExclusionPaths(loc)[..i+1]
    {
      paths := paths + [[container, "_meta", keys[i]]];
    }
  }

  // ----- The preimage is what is left after deleting exactly those paths -----

  predicate HasSignatureBlock(v: Value, loc: Location) {
    match GetPath(v, SignaturePath(loc))
    case Some(Object(_)) => true
    case _ => false
  }

  lemma PathUnfolds(v: Value, loc: Location)
    ensures GetPath(v, SignaturePath(loc)) ==
            match Get(v, ContainerKey(loc)) case None => None case Some(c) =>
            match Get(c, "_meta") case None => None case Some(m) =>
            match Get(m, MetaKey(loc)) case None => None case Some(e) => Get(e, "signature")
  {
    var p := SignaturePath(loc);
    assert p[1..] == ["_meta", MetaKey(loc), "signature"];
    assert p[1..][1..] == [MetaKey(loc), "signature"];
    assert p[1..][1..][1..] == ["signature"];
    assert p[1..][1..][1..][1..] == [];
  }

  lemma DeleteStep(v: Value, path: seq<string>, child: Value)
    requires |path| >= 2 && Get(v, path[0]) == Some(child)
    ensures DeletePath(v, path) == Object(Put(v.entries, path[0], DeletePath(child, path[1..])))
  {
  }

  lemma StripIsDeletion(v: Value, loc: Location)
    ensures StripSignatureValue(v, loc) ==
            if HasSignatureBlock(v, loc) then Ok(DeletePath(v, SignaturePath(loc) + ["value"]))
            else Err(MissingEnvelope)
  {
    PathUnfolds(v, loc);
    if HasSignatureBlock(v, loc) {
      var p := SignaturePath(loc) + ["value"];
      var container := Get(v, p[0]).value;
      var meta := Get(container, p[1]).value;
      var envelope := Get(meta, p[2]).value;
      var signature := Get(envelope, p[3]).value;
      DeleteStep(v, p, container);
      DeleteStep(container, p[1..], meta);
      DeleteStep(meta, p[1..][1..], envelope);
      DeleteStep(envelope, p[1..][1..][1..], signature);
      assert p[1..][1..][1..][1..] == ["value"];
    }
  }

  /** The entries of the container's `_meta`, which is an object. */
  predicate MetaIs(v: Value, loc: Location, container: Value, es: seq<Entry>) {
    Get(v, ContainerKey(loc)) == Some(container) && Get(container, "_meta") == Some(Object(es))
  }

  lemma DeleteTrace(v: Value, loc: Location, container: Value, es: seq<Entry>, key: string)
    requires MetaIs(v, loc, container, es)
    ensures DeletePath(v, TracePath(loc, key)) == WithMeta(v, loc, container, Remove(es, key))
  {
    var p := TracePath(loc, key);
    DeleteStep(v, p, container);
    DeleteStep(container, p[1..], Object(es));
    assert p[1..][1..] == [key];
  }

  lemma WithMetaAgain(v: Value, loc: Location, container: Value, es: seq<Entry>, es': seq<Entry>, es'': seq<Entry>)
    requires MetaIs(v, loc, container, es)
    ensures var w := WithMeta(v, loc, container, es');
            var c := Object(Put(container.entries, "_meta", Object(es')));
            MetaIs(w, loc, c, es') && WithMeta(w, loc, c, es'') == WithMeta(v, loc, container, es'')
  {
    var c := Object(Put(container.entries, "_meta", Object(es')));
    FindPut(v.entries, ContainerKey(loc), c, ContainerKey(loc));
    FindPut(container.entries, "_meta", Object(es'), "_meta");
    PutTwice(container.entries, "_meta", Object(es'), Object(es''));
    PutTwice(v.entries, ContainerKey(loc), c, Object(Put(container.entries, "_meta", Object(es''))));
  }

  lemma {:induction false} TraceKeysAreDeleted(v: Value, loc: Location, container: Value, es: seq<Entry>, keys: seq<string>)
    requires MetaIs(v, loc, container, es)
    ensures WithMeta(v, loc, container, RemoveKeys(es, keys)) == DeletePaths(v, TracePaths(loc, keys))
    decreases keys
  {
    if keys == [] {
      PutBack(container.entries, "_meta");
      PutBack(v.entries, ContainerKey(loc));
    } else {
      var es' := Remove(es, keys[0]);
      var v' := WithMeta(v, loc, container, es');
      var c' := Object(Put(container.entries, "_meta", Object(es')));
      DeleteTrace(v, loc, container, es, keys[0]);
      WithMetaAgain(v, loc, container, es, es', RemoveKeys(es', keys[1..]));
      TraceKeysAreDeleted(v', loc, c', es', keys[1..]);
      assert TracePaths(loc, keys)[1..] == TracePaths(loc, keys[1..]);
    }
  }

  lemma StrippedHasMeta(v: Value, loc: Location) returns (container: Value, es: seq<Entry>)
    requires StripSignatureValue(v, loc).Ok?
    ensures MetaIs(StripSignatureValue(v, loc).value, loc, container, es)
  {
    var w := StripSignatureValue(v, loc).value;
    var c := Get(v, ContainerKey(loc)).value;
    var m := Get(c, "_meta").value;
    var e := Get(m, MetaKey(loc)).value;
    var s := Get(e, "signature").value;
    var e' := Object(Put(e.entries, "signature", Object(Remove(s.entries, "value"))));
    es := Put(m.entries, MetaKey(loc), e');
    container := Object(Put(c.entries, "_meta", Object(es)));
    FindPut(v.entries, ContainerKey(loc), container, ContainerKey(loc));
    FindPut(c.entries, "_meta", Object(es), "_meta");
  }

  /** Signing covers the message minus exactly the four paths, and needs a signature block. */
  lemma PreimageDeletesPaths(v: Value, loc: Location)
    ensures SigningPreimage(v, loc) ==
            if HasSignatureBlock(v, loc) then CanonicalizeJson(DeletePaths(v, ExclusionPaths(loc)))
            else Err(MissingEnvelope)
  {
    StripIsDeletion(v, loc);
    if HasSignatureBlock(v, loc) {
      var container, es := StrippedHasMeta(v, loc);
      TraceKeysAreDeleted(StripSignatureValue(v, loc).value, loc, container, es, OBSERVABILITY_META_KEYS);
      assert ExclusionPaths(loc)[1..] == TracePaths(loc, OBSERVABILITY_META_KEYS);
    }
  }

  // ----- What equal preimages mean -----

  /** The signed part of a message, read as a JCS value. */
  function SignedPart(v: Value, loc: Location): Option<Jcs.JcsValue> {
    ToJcs(DeletePaths(v, ExclusionPaths(loc)), 0)
  }

  lemma PreimageOfSignedPart(v: Value, loc: Location)
    requires SigningPreimage(v, loc).Ok?
    ensures HasSignatureBlock(v, loc) && SignedPart(v, loc).Some?
    ensures var j := SignedPart(v, loc).value;
            Jcs.Printable(j, 0) && Jcs.Safe(j) && SigningPreimage(v, loc) == Canonical.CanonicalizeValue(j)
  {
    PreimageDeletesPaths(v, loc);
    ToJcsSafe(DeletePaths(v, ExclusionPaths(loc)), 0);
  }

  /**
   * Two messages have the same preimage exactly when their signed parts differ in member order
   * only, whether they are signed as requests or as responses.
   */
  lemma PreimagesAgree(a: Value, la: Location, b: Value, lb: Location)
    requires SigningPreimage(a, la).Ok? && SigningPreimage(b, lb).Ok?
    ensures SignedPart(a, la).Some? && SignedPart(b, lb).Some?
    ensures SigningPreimage(a, la) == SigningPreimage(b, lb) <==>
            Jcs.SameUpToOrder(SignedPart(a, la).value, SignedPart(b, lb).value)
  {
    PreimageOfSignedPart(a, la);
    PreimageOfSignedPart(b, lb);
    Canonical.PrintInjective(SignedPart(a, la).value, SignedPart(b, lb).value);
  }

  // ----- Every other path stays bound -----

  lemma {:induction false} FindIsMember(ms: seq<Jcs.Member>, key: string, i: nat)
    requires i < |ms| && ms[i].key == key && Jcs.UniqueKeys(ms)
    ensures FindMember(ms, key) == Some(ms[i].value)
  {
    if i > 0 {
      assert ms[0].key != ms[i].key;
      FindIsMember(ms[1..], key, i - 1);
    }
  }

  lemma {:induction false} FoundAt(ms: seq<Jcs.Member>, key: string) returns (i: nat)
    requires FindMember(ms, key).Some?
    ensures i < |ms| && ms[i] == Jcs.Member(key, FindMember(ms, key).value)
  {
    if ms[0].key == key {
      i := 0;
    } else {
      i := FoundAt(ms[1..], key);
      i := i + 1;
    }
  }

  /** Members with the same name in objects equal up to order are equal up to order. */
  lemma SameMembers(ms: seq<Jcs.Member>, ns: seq<Jcs.Member>, key: string)
    requires Jcs.UniqueKeys(ms) && Jcs.UniqueKeys(ns) && Jcs.SameUpToOrder(Jcs.Object(ms), Jcs.Object(ns))
    ensures FindMember(ms, key).Some? <==> FindMember(ns, key).Some?
    ensures FindMember(ms, key).Some? ==>
            Jcs.SameUpToOrder(FindMember(ms, key).value, FindMember(ns, key).value)
  {
    if FindMember(ms, key).Some? {
      var i := FoundAt(ms, key);
      assert Jcs.Matched(ms[i], ns);
      var j :| 0 <= j < |ns| && ms[i].key == ns[j].key && Jcs.SameUpToOrder(ms[i].value, ns[j].value);
      FindIsMember(ns, key, j);
    } else if FindMember(ns, key).Some? {
      var j := FoundAt(ns, key);
      assert Jcs.Covered(ms, ns[j]);
      var i :| 0 <= i < |ms| && ms[i].key == ns[j].key && Jcs.SameUpToOrder(ms[i].value, ns[j].value);
      FindIsMember(ms, key, i);
    }
  }

  lemma {:induction false} FoundPrintable(ms: seq<Jcs.Member>, key: string, depth: nat)
    requires Jcs.Printable(Jcs.Object(ms), depth) && FindMember(ms, key).Some?
    ensures Jcs.Printable(FindMember(ms, key).value, depth + 1)
  {
    var i := FoundAt(ms, key);
    assert Jcs.Printable(ms[i].value, depth + 1);
  }

  /** Both absent, or both present and equal up to member order. */
  predicate SameOption(x: Option<Jcs.JcsValue>, y: Option<Jcs.JcsValue>) {
    match (x, y)
    case (None, None) => true
    case (Some(v), Some(w)) => Jcs.SameUpToOrder(v, w)
    case _ => false
  }

  lemma {:induction false} SamePaths(v: Jcs.JcsValue, w: Jcs.JcsValue, path: seq<string>, depth: nat)
    requires Jcs.Printable(v, depth) && Jcs.Printable(w, depth) && Jcs.SameUpToOrder(v, w)
    ensures SameOption(ReadPath(v, path), ReadPath(w, path))
    decreases path
  {
    if path != [] && v.Object? {
      var key := path[0];
      SameMembers(v.members, w.members, key);
      if FindMember(v.members, key).Some? {
        FoundPrintable(v.members, key, depth);
        FoundPrintable(w.members, key, depth);
        SamePaths(FindMember(v.members, key).value, FindMember(w.members, key).value, path[1..], depth + 1);
      }
    }
  }

  /** What a path of the message holds, read as a JCS value at its depth. */
  function Reading(v: Value, path: seq<string>): Option<Jcs.JcsValue> {
    match GetPath(v, path)
    case None => None
    case Some(x) => ToJcs(x, |path|)
  }

  /** A path the preimage covers: apart from the signature value and the trace keys. */
  predicate Bound(loc: Location, path: seq<string>) {
    forall q :: q in ExclusionPaths(loc) ==> Apart(path, q)
  }

  /** Every member of the message apart from the four excluded ones is bound by the preimage. */
  lemma EveryOtherPathIsBound(a: Value, la: Location, b: Value, lb: Location, path: seq<string>)
    requires SigningPreimage(a, la).Ok? && SigningPreimage(a, la) == SigningPreimage(b, lb)
    requires Bound(la, path) && Bound(lb, path)
    ensures SameOption(Reading(a, path), Reading(b, path))
    ensures GetPath(a, path).Some? <==> GetPath(b, path).Some?
  {
    PreimagesAgree(a, la, b, lb);
    PreimageOfSignedPart(a, la);
    PreimageOfSignedPart(b, lb);
    SamePaths(SignedPart(a, la).value, SignedPart(b, lb).value, path, 0);
    ReadingOfSignedPart(a, la, path);
    ReadingOfSignedPart(b, lb, path);
  }

  lemma ReadingOfSignedPart(v: Value, loc: Location, path: seq<string>)
    requires SignedPart(v, loc).Some? && Bound(loc, path)
    ensures ReadPath(SignedPart(v, loc).value, path) == Reading(v, path)
    ensures GetPath(v, path).Some? <==> Reading(v, path).Some?
  {
    var w := DeletePaths(v, ExclusionPaths(loc));
    PathConverts(w, 0, path);
    DeletesLeaveOthers(v, ExclusionPaths(loc), path);
    if GetPath(w, path).Some? {
      PathInDomain(w, 0, path);
    }
  }

  lemma {:induction false} PathInDomain(v: Value, depth: nat, path: seq<string>)
    requires ToJcs(v, depth).Some? && GetPath(v, path).Some?
    ensures ToJcs(GetPath(v, path).value, depth + |path|).Some?
    decreases path
  {
    if path != [] {
      FindConverts(v.entries, depth + 1, path[0]);
      PathInDomain(Get(v, path[0]).value, depth + 1, path[1..]);
    }
  }
}
