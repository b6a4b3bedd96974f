/** The JCS-safe value domain: RFC 8259 values restricted to safe integers. */
module Jcs {
  import opened Utf16

  datatype JcsValue =
    | Null
    | Bool(b: bool)
    | Integer(i: int)
    | String(s: string)
    | Array(items: seq<JcsValue>)
    | Object(members: seq<Member>)

  datatype Member = Member(key: string, value: JcsValue)

  const MAX_SAFE_INTEGER: int := 9_007_199_254_740_991
  const MAX_PARSE_DEPTH: nat := 128

  predicate IsSafeInteger(i: int) { -MAX_SAFE_INTEGER <= i <= MAX_SAFE_INTEGER }

  predicate UniqueKeys(ms: seq<Member>) {
    forall i, j :: 0 <= i < j < |ms| ==> ms[i].key != ms[j].key
  }

  /** Every integer is within plus or minus 2^53 - 1. */
  predicate Safe(v: JcsValue) {
    match v
    case Integer(i) => IsSafeInteger(i)
    case Array(items) => forall i :: 0 <= i < |items| ==> Safe(items[i])
    case Object(ms) => forall i :: 0 <= i < |ms| ==> Safe(ms[i].value)
    case _ => true
  }

  /** At nesting level `depth`: containers stay within the bound and no object repeats a key. */
  predicate Printable(v: JcsValue, depth: nat) {
    match v
    case Array(items) =>
      depth < MAX_PARSE_DEPTH && forall i :: 0 <= i < |items| ==> Printable(items[i], depth + 1)
    case Object(ms) =>
      && depth < MAX_PARSE_DEPTH
      && UniqueKeys(ms)
      && forall i :: 0 <= i < |ms| ==> Printable(ms[i].value, depth + 1)
    case _ => true
  }

  // ----- Member order -----

  predicate SortedMembers(ms: seq<Member>) {
    forall i, j :: 0 <= i < j < |ms| ==> !Below(ms[j].key, ms[i].key)
  }

  /** Strictly increasing names: sorted and free of duplicates. */
  predicate StrictlySorted(ms: seq<Member>) {
    forall i, j :: 0 <= i < j < |ms| ==> Below(ms[i].key, ms[j].key)
  }

  function Insert(m: Member, ms: seq<Member>): seq<Member> {
    if ms == [] || Below(m.key, ms[0].key) then [m] + ms else [ms[0]] + Insert(m, ms[1..])
  }

  /** The members in UTF-16 order of their names. */
  function SortMembers(ms: seq<Member>): seq<Member> {
    if ms == [] then [] else Insert(ms[0], SortMembers(ms[1..]))
  }

  /** The value with the members of every object in UTF-16 order. */
  function Normalize(v: JcsValue): JcsValue {
    match v
    case Array(items) => Array(NormalizeItems(items))
    case Object(ms) => Object(SortMembers(NormalizeMembers(ms)))
    case _ => v
  }

  function NormalizeItems(items: seq<JcsValue>): (r: seq<JcsValue>)
    ensures |r| == |items|
    ensures forall i :: 0 <= i < |r| ==> r[i] == Normalize(items[i])
  {
    if items == [] then [] else [Normalize(items[0])] + NormalizeItems(items[1..])
  }

  function NormalizeMembers(ms: seq<Member>): (r: seq<Member>)
    ensures |r| == |ms|
    ensures forall i :: 0 <= i < |r| ==> r[i] == Member(ms[i].key, Normalize(ms[i].value))
  {
    if ms == [] then []
    else [Member(ms[0].key, Normalize(ms[0].value))] + NormalizeMembers(ms[1..])
  }

  /**
   Equal up to the order in which object members are listed: every member has a
   counterpart in the other object, both ways.
   */
  predicate SameUpToOrder(v: JcsValue, w: JcsValue) {
    match (v, w)
    case (Array(xs), Array(ys)) =>
      |xs| == |ys| && forall i :: 0 <= i < |xs| ==> SameUpToOrder(xs[i], ys[i])
    case (Object(ms), Object(ns)) =>
      && (forall i :: 0 <= i < |ms| ==> Matched(ms[i], ns))
      && (forall j :: 0 <= j < |ns| ==> Covered(ms, ns[j]))
    case _ => v == w
  }

  predicate Matched(m: Member, ns: seq<Member>) {
    exists j :: 0 <= j < |ns| && m.key == ns[j].key && SameUpToOrder(m.value, ns[j].value)
  }

  predicate Covered(ms: seq<Member>, n: Member) {
    exists i :: 0 <= i < |ms| && ms[i].key == n.key && SameUpToOrder(ms[i].value, n.value)
  }
}
