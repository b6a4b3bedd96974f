/** Which messages have a canonical form, told by their numbers, their nesting and their keys. */
module Domain {
  import opened Outcome
  import opened Message
  import Jcs
  import Signing

  /** A JCS value as a message. */
  function Embed(j: Jcs.JcsValue): Value {
    match j
    case Null => Null
    case Bool(b) => Bool(b)
    case Integer(i) => Integer(i)
    case String(s) => String(s)
    case Array(items) => Array(EmbedItems(items))
    case Object(ms) => Object(EmbedMembers(ms))
  }

  function EmbedItems(items: seq<Jcs.JcsValue>): (r: seq<Value>)
    ensures |r| == |items| && forall i :: 0 <= i < |r| ==> r[i] == Embed(items[i])
  {
    if items == [] then [] else [Embed(items[0])] + EmbedItems(items[1..])
  }

  function EmbedMembers(ms: seq<Jcs.Member>): (r: seq<Entry>)
    ensures |r| == |ms| && forall i :: 0 <= i < |r| ==> r[i] == Entry(ms[i].key, Embed(ms[i].value))
  {
    if ms == [] then [] else [Entry(ms[0].key, Embed(ms[0].value))] + EmbedMembers(ms[1..])
  }

  /** How many containers are nested in one another. */
  function Levels(j: Jcs.JcsValue): nat {
    match j
    case Array(items) => 1 + MostLevels(items)
    case Object(ms) => 1 + MostMemberLevels(ms)
    case _ => 0
  }

  function Max(a: nat, b: nat): nat { if a < b then b else a }

  function MostLevels(items: seq<Jcs.JcsValue>): nat {
    if items == [] then 0 else Max(Levels(items[0]), MostLevels(items[1..]))
  }

  function MostMemberLevels(ms: seq<Jcs.Member>): nat {
    if ms == [] then 0 else Max(Levels(ms[0].value), MostMemberLevels(ms[1..]))
  }

  lemma {:induction false} MostExactly(items: seq<Jcs.JcsValue>, n: nat)
    ensures MostLevels(items) <= n <==> forall i :: 0 <= i < |items| ==> Levels(items[i]) <= n
  {
    if items != [] {
      MostExactly(items[1..], n);
      assert forall i :: 0 < i < |items| ==> items[i] == items[1..][i - 1];
      assert forall i :: 0 <= i < |items[1..]| ==> items[1..][i] == items[i + 1];
    }
  }

  lemma {:induction false} MostMembersExactly(ms: seq<Jcs.Member>, n: nat)
    ensures MostMemberLevels(ms) <= n <==> forall i :: 0 <= i < |ms| ==> Levels(ms[i].value) <= n
  {
    if ms != [] {
      MostMembersExactly(ms[1..], n);
      assert forall i :: 0 < i < |ms| ==> ms[i] == ms[1..][i - 1];
      assert forall i :: 0 <= i < |ms[1..]| ==> ms[1..][i] == ms[i + 1];
    }
  }

  /** At this depth, the containers end by level 128. */
  predicate Fits(j: Jcs.JcsValue, depth: nat) {
    Levels(j) == 0 || depth + Levels(j) <= 128
  }

  lemma FitsItems(items: seq<Jcs.JcsValue>, depth: nat)
    ensures Fits(Jcs.Array(items), depth) <==> depth < 128 && forall i :: 0 <= i < |items| ==> Fits(items[i], depth + 1)
  {
    if depth < 128 {
      MostExactly(items, 127 - depth);
    }
  }

  lemma FitsMembers(ms: seq<Jcs.Member>, depth: nat)
    ensures Fits(Jcs.Object(ms), depth) <==> depth < 128 && forall i :: 0 <= i < |ms| ==> Fits(ms[i].value, depth + 1)
  {
    if depth < 128 {
      MostMembersExactly(ms, 127 - depth);
    }
  }

  // ----- Conversion -----

  /** A message converts to a value exactly when it is that value, with safe integers and bounded nesting. */
  lemma {:induction false} ConvertsExactly(v: Value, depth: nat, j: Jcs.JcsValue)
    ensures ToJcs(v, depth) == Some(j) <==> v == Embed(j) && Jcs.Safe(j) && Fits(j, depth)
    decreases v
  {
    match v
    case Array(items) => ItemsConvert(v, items, depth, j);
    case Object(es) => EntriesConvert(v, es, depth, j);
    case _ =>
  }

  lemma {:induction false} ItemsConvert(v: Value, items: seq<Value>, depth: nat, j: Jcs.JcsValue)
    requires v == Array(items)
    ensures ToJcs(v, depth) == Some(j) <==> v == Embed(j) && Jcs.Safe(j) && Fits(j, depth)
    decreases v, 0
  {
    if j.Array? && |j.items| == |items| {
      FitsItems(j.items, depth);
      forall i | 0 <= i < |items|
        ensures ToJcs(items[i], depth + 1) == Some(j.items[i]) <==>
                items[i] == Embed(j.items[i]) && Jcs.Safe(j.items[i]) && Fits(j.items[i], depth + 1)
      {
        ConvertsExactly(items[i], depth + 1, j.items[i]);
      }
      ItemsAre(items, j.items, depth + 1);
      assert items == EmbedItems(j.items) <==> forall i :: 0 <= i < |items| ==> items[i] == Embed(j.items[i]);
    }
  }

  lemma ItemsAre(items: seq<Value>, xs: seq<Jcs.JcsValue>, depth: nat)
    requires |items| == |xs|
    ensures ItemsToJcs(items, depth) == Some(xs) <==> forall i :: 0 <= i < |items| ==> ToJcs(items[i], depth) == Some(xs[i])
  {
    if forall i :: 0 <= i < |items| ==> ToJcs(items[i], depth) == Some(xs[i]) {
      assert ItemsToJcs(items, depth).value == xs;
    }
  }

  lemma {:induction false} EntriesConvert(v: Value, es: seq<Entry>, depth: nat, j: Jcs.JcsValue)
    requires v == Object(es)
    ensures ToJcs(v, depth) == Some(j) <==> v == Embed(j) && Jcs.Safe(j) && Fits(j, depth)
    decreases v, 0
  {
    if j.Object? && |j.members| == |es| {
      var ms := j.members;
      FitsMembers(ms, depth);
      forall i | 0 <= i < |es|
        ensures EntryToJcs(es[i], depth + 1) == Some(ms[i]) <==>
                es[i] == Entry(ms[i].key, Embed(ms[i].value)) && Jcs.Safe(ms[i].value) && Fits(ms[i].value, depth + 1)
      {
        ConvertsExactly(es[i].value, depth + 1, ms[i].value);
      }
      EntriesAre(es, ms, depth + 1);
      assert es == EmbedMembers(ms) <==> forall i :: 0 <= i < |es| ==> es[i] == Entry(ms[i].key, Embed(ms[i].value));
    }
  }

  lemma EntriesAre(es: seq<Entry>, ms: seq<Jcs.Member>, depth: nat)
    requires |es| == |ms|
    ensures EntriesToJcs(es, depth) == Some(ms) <==> forall i :: 0 <= i < |es| ==> EntryToJcs(es[i], depth) == Some(ms[i])
  {
    if forall i :: 0 <= i < |es| ==> EntryToJcs(es[i], depth) == Some(ms[i]) {
      assert EntriesToJcs(es, depth).value == ms;
    }
  }

  // ----- Printing -----

  /** No object repeats a key, at any level. */
  predicate UniqueThroughout(j: Jcs.JcsValue) {
    match j
    case Array(items) => forall i :: 0 <= i < |items| ==> UniqueThroughout(items[i])
    case Object(ms) =>
      && (forall i, k :: 0 <= i < k < |ms| ==> ms[i].key != ms[k].key)
      && forall i :: 0 <= i < |ms| ==> UniqueThroughout(ms[i].value)
    case _ => true
  }

  /** A value prints exactly when its nesting is bounded and its keys are unique throughout. */
  lemma {:induction false} PrintsExactly(j: Jcs.JcsValue, depth: nat)
    ensures Jcs.Printable(j, depth) <==> Fits(j, depth) && UniqueThroughout(j)
    decreases j
  {
    match j
    case Array(items) =>
      FitsItems(items, depth);
      forall i | 0 <= i < |items| ensures Jcs.Printable(items[i], depth + 1) <==> Fits(items[i], depth + 1) && UniqueThroughout(items[i]) {
        PrintsExactly(items[i], depth + 1);
      }
    case Object(ms) =>
      FitsMembers(ms, depth);
      forall i | 0 <= i < |ms|
        ensures Jcs.Printable(ms[i].value, depth + 1) <==> Fits(ms[i].value, depth + 1) && UniqueThroughout(ms[i].value)
      {
        PrintsExactly(ms[i].value, depth + 1);
      }
    case _ =>
  }

  /** The message is a JCS value with safe integers, unique keys and at most 128 levels. */
  predicate IsCanonical(v: Value, j: Jcs.JcsValue) {
    v == Embed(j) && Jcs.Safe(j) && Levels(j) <= 128 && UniqueThroughout(j)
  }

  /**
   * A preimage exists exactly when the message has a signature block and is, without the four
   * excluded members, in the canonical domain.
   */
  lemma PreimageExactly(v: Value, loc: Signing.Location)
    ensures Signing.SigningPreimage(v, loc).Ok? <==>
            Signing.HasSignatureBlock(v, loc) && exists j :: IsCanonical(DeletePaths(v, Signing.ExclusionPaths(loc)), j)
  {
    Signing.PreimageDeletesPaths(v, loc);
    var w := DeletePaths(v, Signing.ExclusionPaths(loc));
    if ToJcs(w, 0).Some? {
      var j := ToJcs(w, 0).value;
      ConvertsExactly(w, 0, j);
      PrintsExactly(j, 0);
      if Jcs.Printable(j, 0) {
        assert IsCanonical(w, j);
      }
    }
    forall j | IsCanonical(w, j) ensures ToJcs(w, 0) == Some(j) && Jcs.Printable(j, 0) {
      ConvertsExactly(w, 0, j);
      PrintsExactly(j, 0);
    }
  }
}
