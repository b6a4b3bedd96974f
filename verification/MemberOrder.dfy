/** Sorting members by name, and values that are equal up to member order. */
module MemberOrder {
  import opened Utf16
  import opened Jcs

  lemma {:induction false} InsertSplit(m: Member, ms: seq<Member>) returns (k: nat)
    ensures k <= |ms| && Insert(m, ms) == ms[..k] + [m] + ms[k..]
    ensures forall i :: 0 <= i < k ==> !Below(m.key, ms[i].key)
    ensures k < |ms| ==> Below(m.key, ms[k].key)
  {
    if ms == [] || Below(m.key, ms[0].key) {
      k := 0;
    } else {
      var j := InsertSplit(m, ms[1..]);
      k := j + 1;
      var t := ms[1..];
      assert ms[..k] == [ms[0]] + t[..j];
      assert ms[k..] == t[j..];
      Regroup(ms[0], t[..j], m, t[j..]);
      forall i | 0 <= i < k ensures !Below(m.key, ms[i].key) {
        if i > 0 { assert ms[i] == t[i-1]; }
      }
    }
  }

  lemma Regroup(x: Member, a: seq<Member>, m: Member, b: seq<Member>)
    ensures [x] + (a + [m] + b) == ([x] + a) + [m] + b
  {
  }

  lemma {:induction false} InsertElements(m: Member, ms: seq<Member>)
    ensures |Insert(m, ms)| == |ms| + 1
    ensures forall x :: x in Insert(m, ms) <==> x == m || x in ms
  {
    if ms != [] && !Below(m.key, ms[0].key) {
      InsertElements(m, ms[1..]);
      assert ms == [ms[0]] + ms[1..];
    }
  }

  /** Sorting is a rearrangement: the same members, as many of them. */
  lemma {:induction false} SortElements(ms: seq<Member>)
    ensures |SortMembers(ms)| == |ms|
    ensures SameElements(SortMembers(ms), ms)
  {
    if ms != [] {
      SortElements(ms[1..]);
      InsertElements(ms[0], SortMembers(ms[1..]));
      assert ms == [ms[0]] + ms[1..];
    }
  }

  ghost predicate SameElements(a: seq<Member>, b: seq<Member>) {
    forall x :: x in a <==> x in b
  }

  predicate FreshKey(key: string, ms: seq<Member>) {
    forall i :: 0 <= i < |ms| ==> ms[i].key != key
  }

  /** Insertion keeps a strictly sorted list so exactly when the name is new. */
  lemma InsertStrict(m: Member, ms: seq<Member>)
    ensures StrictlySorted(Insert(m, ms)) <==> StrictlySorted(ms) && FreshKey(m.key, ms)
  {
    var k := InsertSplit(m, ms);
    if StrictlySorted(ms) && FreshKey(m.key, ms) {
      SplitStrict(m, ms, k);
    }
    if StrictlySorted(Insert(m, ms)) {
      StrictSplit(m, ms, k);
    }
  }

  lemma StrictSplit(m: Member, ms: seq<Member>, k: nat)
    requires k <= |ms| && StrictlySorted(ms[..k] + [m] + ms[k..])
    ensures StrictlySorted(ms) && FreshKey(m.key, ms)
  {
    var r := ms[..k] + [m] + ms[k..];
    assert r[k] == m;
    forall i | 0 <= i < |ms| ensures ms[i].key != m.key && ms[i] == r[if i < k then i else i + 1] {
      BelowTotal(ms[i].key, m.key);
      assert ms[i] == r[if i < k then i else i + 1];
    }
  }

  lemma SplitStrict(m: Member, ms: seq<Member>, k: nat)
    requires StrictlySorted(ms) && FreshKey(m.key, ms) && k <= |ms|
    requires forall i :: 0 <= i < k ==> !Below(m.key, ms[i].key)
    requires k < |ms| ==> Below(m.key, ms[k].key)
    ensures StrictlySorted(ms[..k] + [m] + ms[k..])
  {
    var r := ms[..k] + [m] + ms[k..];
    assert r[k] == m;
    forall i | 0 <= i < k ensures Below(r[i].key, m.key) {
      BelowTotal(ms[i].key, m.key);
    }
    forall j | k < j < |r| ensures Below(m.key, r[j].key) {
      assert r[j] == ms[j-1];
      if j > k + 1 {
        BelowTransitive(m.key, ms[k].key, ms[j-1].key);
      }
    }
  }

  /** The duplicate scan over the sorted members finds a duplicate exactly when there is one. */
  lemma {:induction false} SortStrict(ms: seq<Member>)
    ensures StrictlySorted(SortMembers(ms)) <==> UniqueKeys(ms)
  {
    if ms != [] {
      var tail := SortMembers(ms[1..]);
      SortStrict(ms[1..]);
      InsertStrict(ms[0], tail);
      SortElements(ms[1..]);
      assert FreshKey(ms[0].key, tail) <==> FreshKey(ms[0].key, ms[1..]) by {
        SameFresh(ms[0].key, tail, ms[1..]);
      }
      UniqueStep(ms);
    }
  }

  lemma SameFresh(key: string, a: seq<Member>, b: seq<Member>)
    requires SameElements(a, b)
    ensures FreshKey(key, a) <==> FreshKey(key, b)
  {
    forall i | 0 <= i < |a| ensures a[i] in b {}
    forall i | 0 <= i < |b| ensures b[i] in a {}
  }

  lemma UniqueStep(ms: seq<Member>)
    requires ms != []
    ensures UniqueKeys(ms) <==> FreshKey(ms[0].key, ms[1..]) && UniqueKeys(ms[1..])
  {
    if FreshKey(ms[0].key, ms[1..]) && UniqueKeys(ms[1..]) {
      forall i, j | 0 <= i < j < |ms| ensures ms[i].key != ms[j].key {
        assert ms[j] == ms[1..][j-1];
        if i > 0 { assert ms[i] == ms[1..][i-1]; }
      }
    }
    if UniqueKeys(ms) {
      forall i | 0 <= i < |ms[1..]| ensures ms[1..][i].key != ms[0].key {
        assert ms[1..][i] == ms[i+1];
      }
    }
  }

  lemma {:induction false} SortIsSorted(ms: seq<Member>)
    ensures SortedMembers(SortMembers(ms))
  {
    if ms != [] {
      var tail := SortMembers(ms[1..]);
      SortIsSorted(ms[1..]);
      var k := InsertSplit(ms[0], tail);
      var r := SortMembers(ms);
      forall i, j | 0 <= i < j < |r| ensures !Below(r[j].key, r[i].key) {
        BelowTotal(r[i].key, r[j].key);
        if i == k && j > k + 1 {
          assert r[j] == tail[j-1] && !Below(tail[j-1].key, tail[k].key);
          BelowTotal(tail[k].key, tail[j-1].key);
          if Below(tail[k].key, tail[j-1].key) {
            BelowTransitive(ms[0].key, tail[k].key, tail[j-1].key);
          }
        }
      }
    }
  }

  /** A sorted list without equal neighbours is strictly sorted. */
  lemma NeighboursSuffice(ms: seq<Member>)
    requires SortedMembers(ms)
    requires forall i :: 0 <= i < |ms| - 1 ==> ms[i].key != ms[i+1].key
    ensures StrictlySorted(ms)
  {
    forall i, j | 0 <= i < j < |ms| ensures Below(ms[i].key, ms[j].key) {
      BelowTotal(ms[i].key, ms[j].key);
      if ms[i].key == ms[j].key {
        BelowTotal(ms[i].key, ms[i+1].key);
        assert false;
      }
    }
  }

  lemma StrictIsUnique(ms: seq<Member>)
    requires StrictlySorted(ms)
    ensures UniqueKeys(ms)
  {
    forall i, j | 0 <= i < j < |ms| ensures ms[i].key != ms[j].key {
      BelowTotal(ms[i].key, ms[j].key);
    }
  }

  /** There is only one strictly sorted list with given members: which sort is used cannot matter. */
  lemma {:induction false} SortedOnce(a: seq<Member>, b: seq<Member>)
    requires StrictlySorted(a) && StrictlySorted(b)
    requires SameElements(a, b)
    ensures a == b
  {
    assert a != [] ==> a[0] in a;
    assert b != [] ==> b[0] in b;
    if a != [] {
      assert a[0] in b && b[0] in a;
      BelowTotal(a[0].key, b[0].key);
      assert a[0] == b[0];
      forall x ensures x in a[1..] <==> x in b[1..] {
        TailElements(a, x);
        TailElements(b, x);
      }
      SortedOnce(a[1..], b[1..]);
      assert a == [a[0]] + a[1..] && b == [b[0]] + b[1..];
    }
  }

  lemma TailElements(a: seq<Member>, x: Member)
    requires StrictlySorted(a) && a != []
    ensures x in a[1..] <==> x in a && x != a[0]
  {
    if x in a[1..] {
      var i :| 0 <= i < |a[1..]| && a[1..][i] == x;
      assert Below(a[0].key, a[i+1].key);
      BelowTotal(a[0].key, a[i+1].key);
    }
    if x in a && x != a[0] {
      var i :| 0 <= i < |a| && a[i] == x;
      assert a[1..][i-1] == x;
    }
  }

  // ----- Normal forms -----

  lemma {:induction false} InsertNormalize(m: Member, ms: seq<Member>)
    ensures NormalizeMembers(Insert(m, ms)) ==
            Insert(Member(m.key, Normalize(m.value)), NormalizeMembers(ms))
  {
    var n := Member(m.key, Normalize(m.value));
    var r, q := NormalizeMembers(Insert(m, ms)), NormalizeMembers(ms);
    if ms == [] || Below(m.key, ms[0].key) {
      assert r == [n] + q;
    } else {
      InsertNormalize(m, ms[1..]);
      assert q[1..] == NormalizeMembers(ms[1..]);
      assert r == [q[0]] + NormalizeMembers(Insert(m, ms[1..]));
    }
  }

  /** Sorting looks at names only. */
  lemma {:induction false} SortNormalize(ms: seq<Member>)
    ensures NormalizeMembers(SortMembers(ms)) == SortMembers(NormalizeMembers(ms))
  {
    if ms != [] {
      SortNormalize(ms[1..]);
      InsertNormalize(ms[0], SortMembers(ms[1..]));
      assert NormalizeMembers(ms)[1..] == NormalizeMembers(ms[1..]);
    }
  }

  lemma {:induction false} NormalizePrintable(v: JcsValue, depth: nat)
    requires Printable(v, depth)
    ensures Printable(Normalize(v), depth)
  {
    match v
    case Array(items) =>
      forall i | 0 <= i < |items| ensures Printable(NormalizeItems(items)[i], depth + 1) {
        NormalizePrintable(items[i], depth + 1);
      }
    case Object(ms) =>
      var ns := NormalizeMembers(ms);
      forall i | 0 <= i < |ns| ensures Printable(ns[i].value, depth + 1) {
        NormalizePrintable(ms[i].value, depth + 1);
      }
      SortPrintable(ns, depth + 1);
    case _ =>
  }

  lemma SortPrintable(ns: seq<Member>, depth: nat)
    requires UniqueKeys(ns) && forall i :: 0 <= i < |ns| ==> Printable(ns[i].value, depth)
    ensures var r := SortMembers(ns);
            UniqueKeys(r) && forall i :: 0 <= i < |r| ==> Printable(r[i].value, depth)
  {
    var r := SortMembers(ns);
    SortElements(ns);
    SortStrict(ns);
    StrictIsUnique(r);
    forall i | 0 <= i < |r| ensures Printable(r[i].value, depth) {
      assert r[i] in ns;
    }
  }

  lemma {:induction false} NormalizeSafe(v: JcsValue)
    ensures Safe(Normalize(v)) <==> Safe(v)
  {
    match v
    case Array(items) =>
      forall i | 0 <= i < |items| ensures Safe(NormalizeItems(items)[i]) <==> Safe(items[i]) {
        NormalizeSafe(items[i]);
      }
    case Object(ms) =>
      var ns := NormalizeMembers(ms);
      SortElements(ns);
      SameElementsSafe(SortMembers(ns), ns);
      forall i | 0 <= i < |ms| ensures Safe(ns[i].value) <==> Safe(ms[i].value) {
        NormalizeSafe(ms[i].value);
      }
    case _ =>
  }

  predicate SafeMembers(ms: seq<Member>) {
    forall i :: 0 <= i < |ms| ==> Safe(ms[i].value)
  }

  lemma SameElementsSafe(a: seq<Member>, b: seq<Member>)
    requires SameElements(a, b)
    ensures SafeMembers(a) <==> SafeMembers(b)
    ensures Safe(Object(a)) <==> SafeMembers(a)
  {
    forall i | 0 <= i < |a| ensures a[i] in b {}
    forall i | 0 <= i < |b| ensures b[i] in a {}
  }

  /** Members that are pairwise the same up to order normalize to the same list, and conversely. */
  lemma MembersSame(a: seq<Member>, b: seq<Member>)
    requires UniqueKeys(a) && UniqueKeys(b)
    ensures SortMembers(a) == SortMembers(b) <==> SameElements(a, b)
  {
    SortElements(a);
    SortElements(b);
    SortStrict(a);
    SortStrict(b);
    if SameElements(a, b) {
      SortedOnce(SortMembers(a), SortMembers(b));
    }
  }

  /** Two values without duplicate names have the same normal form exactly when they differ in member order only. */
  lemma {:induction false} NormalFormsAgree(v: JcsValue, w: JcsValue, depth: nat)
    requires Printable(v, depth) && Printable(w, depth)
    ensures Normalize(v) == Normalize(w) <==> SameUpToOrder(v, w)
  {
    match (v, w)
    case (Array(xs), Array(ys)) =>
      forall i | 0 <= i < |xs| && i < |ys|
        ensures Normalize(xs[i]) == Normalize(ys[i]) <==> SameUpToOrder(xs[i], ys[i])
      {
        NormalFormsAgree(xs[i], ys[i], depth + 1);
      }
      ItemsSame(xs, ys);
    case (Object(ms), Object(ns)) =>
      forall i, j | 0 <= i < |ms| && 0 <= j < |ns|
        ensures Normalize(ms[i].value) == Normalize(ns[j].value) <==> SameUpToOrder(ms[i].value, ns[j].value)
      {
        NormalFormsAgree(ms[i].value, ns[j].value, depth + 1);
      }
      ObjectsSame(ms, ns);
    case _ =>
  }

  lemma ItemsSame(xs: seq<JcsValue>, ys: seq<JcsValue>)
    ensures NormalizeItems(xs) == NormalizeItems(ys) <==>
            |xs| == |ys| && forall i :: 0 <= i < |xs| ==> Normalize(xs[i]) == Normalize(ys[i])
  {
    if NormalizeItems(xs) == NormalizeItems(ys) {
      forall i | 0 <= i < |xs| ensures Normalize(xs[i]) == Normalize(ys[i]) {
        assert NormalizeItems(xs)[i] == NormalizeItems(ys)[i];
      }
    }
  }

  lemma ObjectsSame(ms: seq<Member>, ns: seq<Member>)
    requires UniqueKeys(ms) && UniqueKeys(ns)
    requires forall i, j :: 0 <= i < |ms| && 0 <= j < |ns| ==>
      (Normalize(ms[i].value) == Normalize(ns[j].value) <==> SameUpToOrder(ms[i].value, ns[j].value))
    ensures SortMembers(NormalizeMembers(ms)) == SortMembers(NormalizeMembers(ns)) <==>
            SameUpToOrder(Object(ms), Object(ns))
  {
    MembersSame(NormalizeMembers(ms), NormalizeMembers(ns));
    assert SameElements(NormalizeMembers(ms), NormalizeMembers(ns)) <==>
           AllCounterparts(ms, ns) && AllCounterparts(ns, ms) by {
      SubsetOfNormalized(ms, ns);
      SubsetOfNormalized(ns, ms);
    }
    SameIsCounterparts(ms, ns);
  }

  /** Some member of `ns` has the name of `m` and the same normal form. */
  ghost predicate Counterpart(m: Member, ns: seq<Member>) {
    exists j :: 0 <= j < |ns| && ns[j].key == m.key && Normalize(ns[j].value) == Normalize(m.value)
  }

  ghost predicate AllCounterparts(ms: seq<Member>, ns: seq<Member>) {
    forall i :: 0 <= i < |ms| ==> Counterpart(ms[i], ns)
  }

  lemma SubsetOfNormalized(ms: seq<Member>, ns: seq<Member>)
    ensures AllCounterparts(ms, ns) <==> forall x :: x in NormalizeMembers(ms) ==> x in NormalizeMembers(ns)
  {
    var a, b := NormalizeMembers(ms), NormalizeMembers(ns);
    if forall x :: x in a ==> x in b {
      forall i | 0 <= i < |ms| ensures Counterpart(ms[i], ns) {
        assert a[i] in b;
        InNormalized(ns, a[i]);
      }
    }
    if AllCounterparts(ms, ns) {
      forall x | x in a ensures x in b {
        var i :| 0 <= i < |a| && a[i] == x;
        assert Counterpart(ms[i], ns);
        InNormalized(ns, x);
      }
    }
  }

  lemma SameIsCounterparts(ms: seq<Member>, ns: seq<Member>)
    requires forall i, j :: 0 <= i < |ms| && 0 <= j < |ns| ==>
      (Normalize(ms[i].value) == Normalize(ns[j].value) <==> SameUpToOrder(ms[i].value, ns[j].value))
    ensures SameUpToOrder(Object(ms), Object(ns)) <==> AllCounterparts(ms, ns) && AllCounterparts(ns, ms)
  {
    forall i | 0 <= i < |ms| ensures Matched(ms[i], ns) <==> Counterpart(ms[i], ns) {}
    forall j | 0 <= j < |ns| ensures Covered(ms, ns[j]) <==> Counterpart(ns[j], ms) {}
  }

  lemma {:induction false} InNormalized(ns: seq<Member>, x: Member)
    ensures x in NormalizeMembers(ns) <==>
            exists j :: 0 <= j < |ns| && ns[j].key == x.key && Normalize(ns[j].value) == x.value
  {
    var b := NormalizeMembers(ns);
    if x in b {
      var j :| 0 <= j < |b| && b[j] == x;
      assert ns[j].key == x.key;
    }
    if j :| 0 <= j < |ns| && ns[j].key == x.key && Normalize(ns[j].value) == x.value {
      assert b[j] == x;
    }
  }

  // ----- Sorting with the comparison -----

  method NameBelow(a: string, b: string) returns (below: bool)
    ensures below == Below(a, b)
  {
    var order := CmpUtf16(a, b);
    below := order == Less;
  }

  lemma InsertPast(m: Member, ms: seq<Member>, i: nat)
    requires i < |ms| && !Below(m.key, ms[i].key)
    ensures ms[..i] + Insert(m, ms[i..]) == ms[..i + 1] + Insert(m, ms[i + 1..])
  {
    var rest := Insert(m, ms[i + 1..]);
    assert ms[i..][1..] == ms[i + 1..];
    assert Insert(m, ms[i..]) == [ms[i]] + rest;
    assert ms[..i] + ([ms[i]] + rest) == ms[..i + 1] + rest;
  }

  lemma InsertHere(m: Member, ms: seq<Member>, i: nat)
    requires i <= |ms| && (i < |ms| ==> Below(m.key, ms[i].key))
    ensures Insert(m, ms[i..]) == [m] + ms[i..]
  {
  }

  method InsertByName(m: Member, ms: seq<Member>) returns (r: seq<Member>)
    ensures r == Insert(m, ms)
  {
    var i := 0;
    assert ms[0..] == ms && ms[..0] + Insert(m, ms) == Insert(m, ms);
    while i < |ms|
      invariant 0 <= i <= |ms|
      invariant ms[..i] + Insert(m, ms[i..]) == Insert(m, ms)
    {
      var below := NameBelow(m.key, ms[i].key);
      if below { break; }
      InsertPast(m, ms, i);
      i := i + 1;
    }
    InsertHere(m, ms, i);
    r := ms[..i] + ([m] + ms[i..]);
  }

  method SortByName(ms: seq<Member>) returns (r: seq<Member>)
    ensures r == SortMembers(ms)
  {
    r := [];
    for i := |ms| downto 0
      invariant r == SortMembers(ms[i..])
    {
      assert ms[i..][1..] == ms[i + 1..];
      r := InsertByName(ms[i], r);
    }
    assert ms[0..] == ms;
  }
}
