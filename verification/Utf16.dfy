/** The UTF-16 code-unit order of RFC 8785 section 3.2.3, on strings of Unicode scalars. */
module Utf16 {

  datatype Ordering = Less | Equal | Greater

  /** The one or two code units of a scalar value. */
  function CodeUnits(c: char): (u: seq<int>)
    ensures |u| == 1 || |u| == 2
  {
    var n := c as int;
    if n < 0x10000 then [n]
    else [0xD800 + (n - 0x10000) / 0x400, 0xDC00 + (n - 0x10000) % 0x400]
  }

  function Encode(s: string): seq<int> {
    if s == [] then [] else CodeUnits(s[0]) + Encode(s[1..])
  }

  /** Lexicographic comparison of code-unit sequences. */
  function Compare(a: seq<int>, b: seq<int>): Ordering {
    if a == [] && b == [] then Equal
    else if a == [] then Less
    else if b == [] then Greater
    else if a[0] < b[0] then Less
    else if a[0] > b[0] then Greater
    else Compare(a[1..], b[1..])
  }

  /** The order in which object members are emitted. */
  predicate Below(a: string, b: string) {
    Compare(Encode(a), Encode(b)) == Less
  }

  method CmpUtf16(a: string, b: string) returns (o: Ordering)
    ensures o == Compare(Encode(a), Encode(b))
  {
    var ai, bi := Encode(a), Encode(b);
    var i := 0;
    while i < |ai| && i < |bi|
      invariant 0 <= i <= |ai| && i <= |bi|
      invariant Compare(ai[i..], bi[i..]) == Compare(ai, bi)
    {
      if ai[i] < bi[i] { return Less; }
      if ai[i] > bi[i] { return Greater; }
      assert ai[i..][1..] == ai[i+1..] && bi[i..][1..] == bi[i+1..];
      i := i + 1;
    }
    if i < |ai| { return Greater; }
    if i < |bi| { return Less; }
    return Equal;
  }

  lemma {:induction false} CompareEqual(a: seq<int>, b: seq<int>)
    requires Compare(a, b) == Equal
    ensures a == b
  {
    if a != [] && b != [] {
      CompareEqual(a[1..], b[1..]);
      assert a == [a[0]] + a[1..] && b == [b[0]] + b[1..];
    }
  }

  lemma {:induction false} CompareFlip(a: seq<int>, b: seq<int>)
    ensures Compare(a, b) == Less <==> Compare(b, a) == Greater
    ensures Compare(a, a) == Equal
  {
    if a != [] {
      CompareFlip(a[1..], if b == [] then [] else b[1..]);
    }
  }

  lemma {:induction false} CompareTransitive(a: seq<int>, b: seq<int>, c: seq<int>)
    requires Compare(a, b) == Less && Compare(b, c) == Less
    ensures Compare(a, c) == Less
  {
    if a != [] && b != [] && c != [] && a[0] == b[0] == c[0] {
      CompareTransitive(a[1..], b[1..], c[1..]);
    }
  }

  /** A scalar can be read back from the front of a code-unit stream. */
  lemma CodeUnitsPrefix(c: char, d: char, x: seq<int>, y: seq<int>)
    requires CodeUnits(c) + x == CodeUnits(d) + y
    ensures c == d && x == y
  {
    var l, r := CodeUnits(c) + x, CodeUnits(d) + y;
    assert l[0] == CodeUnits(c)[0] && r[0] == CodeUnits(d)[0];
    assert (c as int < 0x10000) <==> (d as int < 0x10000);
    if c as int >= 0x10000 {
      assert l[1] == CodeUnits(c)[1] && r[1] == CodeUnits(d)[1];
    }
    assert x == l[|CodeUnits(c)|..] && y == r[|CodeUnits(d)|..];
  }

  /** Distinct strings have distinct code-unit sequences: no scalar is a surrogate. */
  lemma {:induction false} EncodeInjective(a: string, b: string)
    requires Encode(a) == Encode(b)
    ensures a == b
  {
    if a == [] || b == [] {
      assert a == [] ==> |Encode(a)| == 0;
      assert b == [] ==> |Encode(b)| == 0;
    } else {
      CodeUnitsPrefix(a[0], b[0], Encode(a[1..]), Encode(b[1..]));
      EncodeInjective(a[1..], b[1..]);
      assert a == [a[0]] + a[1..] && b == [b[0]] + b[1..];
    }
  }

  /** `Below` is a strict total order on member names. */
  lemma BelowTotal(a: string, b: string)
    ensures Below(a, b) || Below(b, a) || a == b
    ensures !(Below(a, b) && Below(b, a))
    ensures !Below(a, a)
  {
    CompareFlip(Encode(a), Encode(b));
    CompareFlip(Encode(b), Encode(a));
    if Compare(Encode(a), Encode(b)) == Equal {
      CompareEqual(Encode(a), Encode(b));
      EncodeInjective(a, b);
    }
  }

  lemma BelowTransitive(a: string, b: string, c: string)
    requires Below(a, b) && Below(b, c)
    ensures Below(a, c)
  {
    CompareTransitive(Encode(a), Encode(b), Encode(c));
  }

  // ----- The order on names -----

  /** Of two distinct characters, the first sorts first: supplementary ones come before U+E000 to U+FFFF. */
  predicate CharBelow(c: char, d: char) {
    var (m, n) := (c as int, d as int);
    || (m >= 0x10000 && 0xE000 <= n <= 0xFFFF)
    || (m < n && !(0xE000 <= m <= 0xFFFF && n >= 0x10000))
  }

  lemma {:induction false} CompareCommon(p: seq<int>, x: seq<int>, y: seq<int>)
    ensures Compare(p + x, p + y) == Compare(x, y)
  {
    if p == [] {
      assert p + x == x && p + y == y;
    } else {
      assert (p + x)[1..] == p[1..] + x && (p + y)[1..] == p[1..] + y;
      CompareCommon(p[1..], x, y);
    }
  }

  lemma {:induction false} EncodeAppend(p: string, x: string)
    ensures Encode(p + x) == Encode(p) + Encode(x)
  {
    if p == [] {
      assert p + x == x;
    } else {
      assert (p + x)[1..] == p[1..] + x;
      EncodeAppend(p[1..], x);
      assert CodeUnits(p[0]) + (Encode(p[1..]) + Encode(x)) == CodeUnits(p[0]) + Encode(p[1..]) + Encode(x);
    }
  }

  lemma CompareUnits(c: char, d: char, x: seq<int>, y: seq<int>)
    requires c != d
    ensures Compare(CodeUnits(c) + x, CodeUnits(d) + y) == Less <==> CharBelow(c, d)
  {
    var (u, v) := (CodeUnits(c), CodeUnits(d));
    var (l, r) := (u + x, v + y);
    assert l[0] == u[0] && r[0] == v[0];
    if c as int >= 0x10000 && d as int >= 0x10000 {
      assert l[1..][0] == u[1] && r[1..][0] == v[1];
    }
  }

  /**
   * The order, on names themselves: where two names first differ, the character order decides,
   * and a proper prefix is below every extension of it.
   */
  lemma BelowExactly(p: string, c: char, d: char, x: string, y: string)
    requires c != d
    ensures Below(p + [c] + x, p + [d] + y) <==> CharBelow(c, d)
    ensures Below(p, p + [c] + x) && !Below(p + [c] + x, p)
  {
    EncodeSplit(p, c, x);
    EncodeSplit(p, d, y);
    CompareCommon(Encode(p), CodeUnits(c) + Encode(x), CodeUnits(d) + Encode(y));
    CompareUnits(c, d, Encode(x), Encode(y));
    assert Encode(p) + [] == Encode(p);
    CompareCommon(Encode(p), [], CodeUnits(c) + Encode(x));
    CompareCommon(Encode(p), CodeUnits(c) + Encode(x), []);
  }

  lemma EncodeSplit(p: string, c: char, x: string)
    ensures Encode(p + [c] + x) == Encode(p) + (CodeUnits(c) + Encode(x))
  {
    assert p + [c] + x == p + ([c] + x);
    EncodeAppend(p, [c] + x);
    assert ([c] + x)[1..] == x;
  }
}
