/** JSON-RPC messages as parsed trees, and their reading as JCS values. */
module Message {
  import opened Outcome
  import Jcs

  /** A parsed tree. A number is an integer or it is not one. */
  datatype Value =
    | Null
    | Bool(b: bool)
    | Integer(i: int)
    | NonInteger(token: string)
    | String(s: string)
    | Array(items: seq<Value>)
    | Object(entries: seq<Entry>)

  datatype Entry = Entry(key: string, value: Value)

  // ----- Access by name -----

  function Find(es: seq<Entry>, key: string): Option<Value> {
    if es == [] then None
    else if es[0].key == key then Some(es[0].value)
    else Find(es[1..], key)
  }

  function Get(v: Value, key: string): Option<Value> {
    if v.Object? then Find(v.entries, key) else None
  }

  function GetString(v: Value, key: string): Option<string> {
    match Get(v, key)
    case Some(String(s)) => Some(s)
    case _ => None
  }

  function Remove(es: seq<Entry>, key: string): seq<Entry> {
    if es == [] then []
    else if es[0].key == key then Remove(es[1..], key)
    else [es[0]] + Remove(es[1..], key)
  }

  /** Insert, or overwrite in place. */
  function Put(es: seq<Entry>, key: string, v: Value): seq<Entry> {
    if es == [] then [Entry(key, v)]
    else if es[0].key == key then [Entry(key, v)] + es[1..]
    else [es[0]] + Put(es[1..], key, v)
  }

  function GetPath(v: Value, path: seq<string>): Option<Value>
    decreases path
  {
    if path == [] then Some(v)
    else match Get(v, path[0])
      case None => None
      case Some(child) => GetPath(child, path[1..])
  }

  /** Overwrite the child at a path that exists. */
  function PutPath(v: Value, path: seq<string>, x: Value): Value
    decreases path
  {
    if path == [] then x
    else match Get(v, path[0])
      case None => v
      case Some(child) => Object(Put(v.entries, path[0], PutPath(child, path[1..], x)))
  }

  /** Remove the member at a path, if it is there. */
  function DeletePath(v: Value, path: seq<string>): Value
    decreases path
  {
    if path == [] || !v.Object? then v
    else if |path| == 1 then Object(Remove(v.entries, path[0]))
    else match Get(v, path[0])
      case None => v
      case Some(child) => Object(Put(v.entries, path[0], DeletePath(child, path[1..])))
  }

  function DeletePaths(v: Value, paths: seq<seq<string>>): Value
    decreases paths
  {
    if paths == [] then v else DeletePaths(DeletePath(v, paths[0]), paths[1..])
  }

  predicate Distinct(names: seq<string>) {
    forall i, j :: 0 <= i < j < |names| ==> names[i] != names[j]
  }

  predicate UniqueNames(es: seq<Entry>) {
    forall i, j :: 0 <= i < j < |es| ==> es[i].key != es[j].key
  }

  // ----- Laws of access -----

  lemma {:induction false} FindPut(es: seq<Entry>, key: string, v: Value, other: string)
    ensures Find(Put(es, key, v), other) == if other == key then Some(v) else Find(es, other)
  {
    if es != [] && es[0].key != key {
      FindPut(es[1..], key, v, other);
    }
  }

  lemma {:induction false} FindRemove(es: seq<Entry>, key: string, other: string)
    ensures Find(Remove(es, key), other) == if other == key then None else Find(es, other)
  {
    if es != [] {
      FindRemove(es[1..], key, other);
    }
  }

  lemma {:induction false} PutTwice(es: seq<Entry>, key: string, v: Value, w: Value)
    ensures Put(Put(es, key, v), key, w) == Put(es, key, w)
  {
    if es != [] && es[0].key != key {
      PutTwice(es[1..], key, v, w);
    }
  }

  lemma {:induction false} PutBack(es: seq<Entry>, key: string)
    requires Find(es, key).Some?
    ensures Put(es, key, Find(es, key).value) == es
  {
    if es[0].key == key {
      assert es == [es[0]] + es[1..];
    } else {
      PutBack(es[1..], key);
      assert es == [es[0]] + es[1..];
    }
  }

  lemma {:induction false} RemovePut(es: seq<Entry>, key: string, v: Value)
    ensures Remove(Put(es, key, v), key) == Remove(es, key)
  {
    if es != [] && es[0].key != key {
      RemovePut(es[1..], key, v);
    }
  }

  lemma PathStep(v: Value, key: string, rest: seq<string>)
    ensures GetPath(v, [key] + rest) == match Get(v, key) case None => None case Some(child) => GetPath(child, rest)
  {
    assert ([key] + rest)[1..] == rest;
  }

  /** Neither path leads to the other. */
  predicate Apart(p: seq<string>, q: seq<string>) {
    !(p <= q) && !(q <= p)
  }

  /** Deleting one path leaves every path apart from it alone. */
  lemma {:induction false} DeleteLeavesOthers(v: Value, q: seq<string>, p: seq<string>)
    requires Apart(p, q)
    ensures GetPath(DeletePath(v, q), p) == GetPath(v, p)
    decreases q
  {
    assert p != [] && q != [];
    if v.Object? {
      if |q| == 1 {
        FindRemove(v.entries, q[0], p[0]);
      } else {
        match Get(v, q[0])
        case None =>
        case Some(child) =>
          FindPut(v.entries, q[0], DeletePath(child, q[1..]), p[0]);
          if p[0] == q[0] {
            ApartTails(p, q);
            DeleteLeavesOthers(child, q[1..], p[1..]);
          }
      }
    }
  }

  lemma ApartTails(p: seq<string>, q: seq<string>)
    requires p != [] && q != [] && p[0] == q[0] && Apart(p, q)
    ensures Apart(p[1..], q[1..])
  {
    assert p == [p[0]] + p[1..] && q == [q[0]] + q[1..];
  }

  /** What is deleted is gone. */
  lemma {:induction false} DeletedIsGone(v: Value, q: seq<string>)
    requires q != []
    ensures GetPath(DeletePath(v, q), q).None?
    decreases q
  {
    if v.Object? {
      if |q| == 1 {
        FindRemove(v.entries, q[0], q[0]);
      } else if Get(v, q[0]).Some? {
        var child := Get(v, q[0]).value;
        DeletedIsGone(child, q[1..]);
        FindPut(v.entries, q[0], DeletePath(child, q[1..]), q[0]);
      }
    }
  }

  lemma {:induction false} DeletesLeaveOthers(v: Value, qs: seq<seq<string>>, p: seq<string>)
    requires forall i :: 0 <= i < |qs| ==> Apart(p, qs[i])
    ensures GetPath(DeletePaths(v, qs), p) == GetPath(v, p)
    decreases qs
  {
    if qs != [] {
      DeleteLeavesOthers(v, qs[0], p);
      DeletesLeaveOthers(DeletePath(v, qs[0]), qs[1..], p);
    }
  }

  // ----- Reading a tree as a JCS value -----

  function ToJcs(v: Value, depth: nat): Option<Jcs.JcsValue> {
    match v
    case Null => Some(Jcs.Null)
    case Bool(b) => Some(Jcs.Bool(b))
    case Integer(i) => if Jcs.IsSafeInteger(i) then Some(Jcs.Integer(i)) else None
    case NonInteger(_) => None
    case String(s) => Some(Jcs.String(s))
    case Array(items) =>
      if depth >= Jcs.MAX_PARSE_DEPTH then None
      else (match ItemsToJcs(items, depth + 1)
        case None => None
        case Some(xs) => Some(Jcs.Array(xs)))
    case Object(es) =>
      if depth >= Jcs.MAX_PARSE_DEPTH then None
      else (match EntriesToJcs(es, depth + 1)
        case None => None
        case Some(ms) => Some(Jcs.Object(ms)))
  }

  function Cons<T>(x: Option<T>, xs: Option<seq<T>>): Option<seq<T>> {
    if x.Some? && xs.Some? then Some([x.value] + xs.value) else None
  }

  function EntryToJcs(e: Entry, depth: nat): Option<Jcs.Member> {
    match ToJcs(e.value, depth)
    case None => None
    case Some(x) => Some(Jcs.Member(e.key, x))
  }

  function ItemsToJcs(items: seq<Value>, depth: nat): (r: Option<seq<Jcs.JcsValue>>)
    ensures r.Some? <==> forall i :: 0 <= i < |items| ==> ToJcs(items[i], depth).Some?
    ensures r.Some? ==> |r.value| == |items| && forall i :: 0 <= i < |items| ==> ToJcs(items[i], depth) == Some(r.value[i])
  {
    if items == [] then Some([]) else Cons(ToJcs(items[0], depth), ItemsToJcs(items[1..], depth))
  }

  function EntriesToJcs(es: seq<Entry>, depth: nat): (r: Option<seq<Jcs.Member>>)
    ensures r.Some? <==> forall i :: 0 <= i < |es| ==> EntryToJcs(es[i], depth).Some?
    ensures r.Some? ==> |r.value| == |es| && forall i :: 0 <= i < |es| ==> EntryToJcs(es[i], depth) == Some(r.value[i])
  {
    if es == [] then Some([]) else Cons(EntryToJcs(es[0], depth), EntriesToJcs(es[1..], depth))
  }

  method FromSerdeValue(v: Value, depth: nat) returns (r: Option<Jcs.JcsValue>)
    ensures r == ToJcs(v, depth)
    decreases v, 1
  {
    match v {
      case Null => return Some(Jcs.Null);
      case Bool(b) => return Some(Jcs.Bool(b));
      case Integer(i) => return if Jcs.IsSafeInteger(i) then Some(Jcs.Integer(i)) else None;
      case NonInteger(_) => return None;
      case String(s) => return Some(Jcs.String(s));
      case Array(items) =>
        if depth >= Jcs.MAX_PARSE_DEPTH { return None; }
        var xs := FromSerdeItems(v, depth + 1);
        return if xs.Some? then Some(Jcs.Array(xs.value)) else None;
      case Object(es) =>
        if depth >= Jcs.MAX_PARSE_DEPTH { return None; }
        var ms := FromSerdeEntries(v, depth + 1);
        return if ms.Some? then Some(Jcs.Object(ms.value)) else None;
    }
  }

  method FromSerdeItems(v: Value, depth: nat) returns (r: Option<seq<Jcs.JcsValue>>)
    requires v.Array?
    ensures r == ItemsToJcs(v.items, depth)
    decreases v, 0
  {
    var out: seq<Jcs.JcsValue> := [];
    for i := 0 to |v.items|
      invariant |out| == i && forall j :: 0 <= j < i ==> ToJcs(v.items[j], depth) == Some(out[j])
    {
      var x := FromSerdeValue(v.items[i], depth);
      if x.None? { return None; }
      out := out + [x.value];
    }
    assert out == ItemsToJcs(v.items, depth).value;
    return Some(out);
  }

  method FromSerdeEntries(v: Value, depth: nat) returns (r: Option<seq<Jcs.Member>>)
    requires v.Object?
    ensures r == EntriesToJcs(v.entries, depth)
    decreases v, 0
  {
    var out: seq<Jcs.Member> := [];
    for i := 0 to |v.entries|
      invariant |out| == i && forall j :: 0 <= j < i ==> EntryToJcs(v.entries[j], depth) == Some(out[j])
    {
      var x := FromSerdeValue(v.entries[i].value, depth);
      if x.None? { return None; }
      out := out + [Jcs.Member(v.entries[i].key, x.value)];
    }
    assert out == EntriesToJcs(v.entries, depth).value;
    return Some(out);
  }

  /** A tree that converts has safe integers only. */
  lemma {:induction false} ToJcsSafe(v: Value, depth: nat)
    requires ToJcs(v, depth).Some?
    ensures Jcs.Safe(ToJcs(v, depth).value)
  {
    match v
    case Array(items) =>
      var xs := ItemsToJcs(items, depth + 1).value;
      forall i | 0 <= i < |items| ensures Jcs.Safe(xs[i]) {
        ToJcsSafe(items[i], depth + 1);
      }
    case Object(es) =>
      var ms := EntriesToJcs(es, depth + 1).value;
      forall i | 0 <= i < |es| ensures Jcs.Safe(ms[i].value) {
        assert EntryToJcs(es[i], depth + 1).Some?;
        ToJcsSafe(es[i].value, depth + 1);
      }
    case _ =>
  }

  // ----- Access commutes with the reading -----

  function FindMember(ms: seq<Jcs.Member>, key: string): Option<Jcs.JcsValue> {
    if ms == [] then None
    else if ms[0].key == key then Some(ms[0].value)
    else FindMember(ms[1..], key)
  }

  function ReadPath(v: Jcs.JcsValue, path: seq<string>): Option<Jcs.JcsValue>
    decreases path
  {
    if path == [] then Some(v)
    else if !v.Object? then None
    else match FindMember(v.members, path[0])
      case None => None
      case Some(child) => ReadPath(child, path[1..])
  }

  lemma {:induction false} FindConverts(es: seq<Entry>, depth: nat, key: string)
    requires EntriesToJcs(es, depth).Some?
    ensures FindMember(EntriesToJcs(es, depth).value, key) ==
            match Find(es, key) case None => None case Some(x) => ToJcs(x, depth)
    ensures Find(es, key).Some? ==> ToJcs(Find(es, key).value, depth).Some?
  {
    if es != [] {
      assert EntryToJcs(es[0], depth).Some?;
      if es[0].key != key {
        FindConverts(es[1..], depth, key);
      }
    }
  }

  /** Looking up a path and reading the result is the same as reading first. */
  lemma {:induction false} PathConverts(v: Value, depth: nat, path: seq<string>)
    requires ToJcs(v, depth).Some?
    ensures ReadPath(ToJcs(v, depth).value, path) ==
            match GetPath(v, path) case None => None case Some(x) => ToJcs(x, depth + |path|)
    decreases path
  {
    if path != [] && v.Object? {
      FindConverts(v.entries, depth + 1, path[0]);
      match Get(v, path[0])
      case None =>
      case Some(child) => PathConverts(child, depth + 1, path[1..]);
    }
  }
}
