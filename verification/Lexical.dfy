/** What the parser takes, character by character, told on the texts alone. */
module Lexical {
  import opened Outcome
  import opened Decimal
  import opened Grammar
  import opened Jcs
  import opened Recognizer

  /** Exactly four characters are white space. */
  lemma WhiteSpaceExactly(c: char)
    ensures Parse("null" + [c]).Ok? <==> c in {' ', '\t', '\n', '\r'}
  {
    var s := "null" + [c];
    assert "null" <= s && s[4..] == [c];
    assert SkipWs(s) == s;
    assert [c][1..] == [];
  }

  // ----- Strings -----

  lemma QuotedParses(body: string)
    ensures Parse("\"" + body + "\"") ==
            match ParseChars(body + "\"")
            case Fail => Err(CanonicalizationFailed)
            case Done(cs, r) => if SkipWs(r) == [] then Ok(String(cs)) else Err(CanonicalizationFailed)
  {
    var s := "\"" + body + "\"";
    assert s[0] == '"' && s[1..] == body + "\"";
    assert SkipWs(s) == s;
  }

  lemma LastPiece(s: string, c: char)
    requires s != [] && s[0] != '"' && ParsePiece(s) == Done(c, "\"")
    ensures ParseChars(s) == Done([c], [])
  {
    var quote := "\"";
    assert quote[1..] == [];
    assert ParseChars(quote) == Done([], []);
    assert [c] + [] == [c];
  }

  /** A character stands for itself in a string exactly from U+0020 on, except quote and backslash. */
  lemma PlainCharacterExactly(c: char)
    ensures Parse("\"" + [c] + "\"") ==
            if c as int >= 0x20 && c != '"' && c != '\\' then Ok(String([c])) else Err(CanonicalizationFailed)
  {
    QuotedParses([c]);
    var s := [c] + "\"";
    assert s[1..] == "\"" && s[2..] == [];
    if c == '"' {
      assert ParseChars(s) == Done([], "\"");
      assert SkipWs("\"") == "\"";
    } else if c == '\\' {
      assert ParsePiece(s) == Done('"', []);
      assert ParseChars([]) == Fail;
    } else if c as int >= 0x20 {
      LastPiece(s, c);
    }
  }

  /** The one-letter escapes and what they stand for. */
  lemma ShortEscapeExactly(e: char)
    ensures Parse("\"\\" + [e] + "\"") ==
            if e == '"' then Ok(String("\""))
            else if e == '\\' then Ok(String("\\"))
            else if e == '/' then Ok(String("/"))
            else if e == 'b' then Ok(String("\U{0008}"))
            else if e == 'f' then Ok(String("\U{000C}"))
            else if e == 'n' then Ok(String("\n"))
            else if e == 'r' then Ok(String("\r"))
            else if e == 't' then Ok(String("\t"))
            else Err(CanonicalizationFailed)
  {
    var body := "\\" + [e];
    assert "\"" + body + "\"" == "\"\\" + [e] + "\"";
    QuotedParses(body);
    var s := body + "\"";
    assert s[0] == '\\' && s[1] == e && s[2..] == "\"";
    if e != 'u' && ShortMeaning(e) != [] {
      LastPiece(s, ShortMeaning(e)[0]);
    }
  }

  /** The number a hexadecimal digit stands for, in either case. */
  predicate IsHexOf(c: char, d: nat) {
    d < 16 && (c == "0123456789abcdef"[d] || c == "0123456789ABCDEF"[d])
  }

  lemma HexDigitExactly(c: char, d: nat)
    ensures IsHex(c) && HexDigit(c) == d <==> IsHexOf(c, d)
  {
  }

  /** Four hexadecimal digits for this number. */
  predicate Spells(h: string, n: nat) {
    && |h| == 4 && n < 0x10000
    && IsHexOf(h[0], n / 0x1000) && IsHexOf(h[1], n / 0x100 % 0x10)
    && IsHexOf(h[2], n / 0x10 % 0x10) && IsHexOf(h[3], n % 0x10)
  }

  lemma HexReadFour(h: string)
    requires IsHex4(h)
    ensures HexRead(h) == 0x1000 * HexDigit(h[0]) + 0x100 * HexDigit(h[1]) + 0x10 * HexDigit(h[2]) + HexDigit(h[3])
  {
    assert h[..3][..2] == h[..2] && h[..2][..1] == h[..1] && h[..1][..0] == [];
    assert HexRead(h[..1]) == HexDigit(h[0]);
    assert HexRead(h[..2]) == HexRead(h[..1]) * 16 + HexDigit(h[1]);
    assert HexRead(h[..3]) == HexRead(h[..2]) * 16 + HexDigit(h[2]);
  }

  lemma DigitsOf(a: nat, b: nat, c: nat, d: nat)
    requires a < 16 && b < 16 && c < 16 && d < 16
    ensures var n := 0x1000 * a + 0x100 * b + 0x10 * c + d;
            n < 0x10000 && n / 0x1000 == a && n / 0x100 % 0x10 == b && n / 0x10 % 0x10 == c && n % 0x10 == d
  {
    var n := 0x1000 * a + 0x100 * b + 0x10 * c + d;
    assert n / 0x100 == 0x10 * a + b;
    assert n / 0x10 == 0x10 * (0x10 * a + b) + c;
  }

  lemma ReadSpells(h: string)
    requires IsHex4(h)
    ensures Spells(h, HexRead(h))
  {
    var (a, b, c, d) := (HexDigit(h[0]), HexDigit(h[1]), HexDigit(h[2]), HexDigit(h[3]));
    HexReadFour(h);
    DigitsOf(a, b, c, d);
    HexDigitExactly(h[0], a);
    HexDigitExactly(h[1], b);
    HexDigitExactly(h[2], c);
    HexDigitExactly(h[3], d);
  }

  lemma HexOfOne(c: char, d: nat, e: nat)
    requires IsHexOf(c, d) && IsHexOf(c, e)
    ensures d == e
  {
    HexDigitExactly(c, d);
    HexDigitExactly(c, e);
  }

  lemma NumberOf(n: nat)
    requires n < 0x10000
    ensures n == 0x1000 * (n / 0x1000) + 0x100 * (n / 0x100 % 0x10) + 0x10 * (n / 0x10 % 0x10) + n % 0x10
  {
    var m := n / 0x10;
    var l := m / 0x10;
    assert l == n / 0x100;
    assert l / 0x10 == n / 0x1000;
  }

  lemma SpelledHex(h: string, n: nat)
    requires Spells(h, n)
    ensures IsHex4(h)
  {
    HexDigitExactly(h[0], n / 0x1000);
    HexDigitExactly(h[1], n / 0x100 % 0x10);
    HexDigitExactly(h[2], n / 0x10 % 0x10);
    HexDigitExactly(h[3], n % 0x10);
  }

  lemma SpelledExactly(h: string, n: nat)
    ensures IsHex4(h) && HexRead(h) == n <==> Spells(h, n)
  {
    if Spells(h, n) {
      SpelledHex(h, n);
    }
    if IsHex4(h) {
      ReadSpells(h);
      var m := HexRead(h);
      if Spells(h, n) {
        HexOfOne(h[0], n / 0x1000, m / 0x1000);
        HexOfOne(h[1], n / 0x100 % 0x10, m / 0x100 % 0x10);
        HexOfOne(h[2], n / 0x10 % 0x10, m / 0x10 % 0x10);
        HexOfOne(h[3], n % 0x10, m % 0x10);
        NumberOf(n);
        NumberOf(m);
      }
    }
  }

  /** A lone `\u` escape is taken exactly when it spells a number that is no surrogate, and stands for that character. */
  lemma UnicodeEscapeExactly(h: string, n: nat)
    requires Spells(h, n)
    ensures Parse("\"\\u" + h + "\"") ==
            if 0xD800 <= n <= 0xDFFF then Err(CanonicalizationFailed) else Ok(String([n as char]))
  {
    SpelledExactly(h, n);
    var body := "\\u" + h;
    assert "\"" + body + "\"" == "\"\\u" + h + "\"";
    QuotedParses(body);
    var s := body + "\"";
    assert s == "\\u" + (h + "\"");
    EscapeStart(s, h + "\"");
    Hex4Complete(h, "\"");
    assert (h + "\"")[..4] == h;
    if !(0xD800 <= n <= 0xDFFF) {
      LastPiece(s, n as char);
    }
  }

  /** Four characters that spell no number are no escape. */
  lemma OtherEscapesRefused(h: string)
    requires |h| == 4 && forall n: nat :: !Spells(h, n)
    ensures Parse("\"\\u" + h + "\"").Err?
  {
    if IsHex4(h) {
      SpelledExactly(h, HexRead(h));
      assert false;
    }
    var body := "\\u" + h;
    assert "\"" + body + "\"" == "\"\\u" + h + "\"";
    QuotedParses(body);
    var s := body + "\"";
    assert s == "\\u" + (h + "\"");
    EscapeStart(s, h + "\"");
    assert (h + "\"")[..4] == h;
  }

  lemma PairIs(hi: string, lo: string, n: nat)
    requires 0x10000 <= n <= 0x10FFFF && IsHex4(hi) && IsHex4(lo)
    requires HexRead(hi) == 0xD800 + (n - 0x10000) / 0x400 && HexRead(lo) == 0xDC00 + (n - 0x10000) % 0x400
    ensures ValidPiece(Pair(hi, lo)) && PieceChar(Pair(hi, lo)) == n as char
  {
    var m := n - 0x10000;
    assert m == 0x400 * (m / 0x400) + m % 0x400;
  }

  lemma PairBody(hi: string, lo: string)
    ensures "\"" + PieceText(Pair(hi, lo)) + "\"" == "\"\\u" + hi + "\\u" + lo + "\""
  {
    assert "\"" + ("\\u" + hi + "\\u" + lo) == "\"\\u" + hi + "\\u" + lo;
  }

  /** Beyond U+FFFF a character is written as its two UTF-16 code units, high one first. */
  lemma SurrogatePairReads(hi: string, lo: string, n: nat)
    requires 0x10000 <= n <= 0x10FFFF
    requires Spells(hi, 0xD800 + (n - 0x10000) / 0x400) && Spells(lo, 0xDC00 + (n - 0x10000) % 0x400)
    ensures Parse("\"\\u" + hi + "\\u" + lo + "\"") == Ok(String([n as char]))
  {
    SpelledExactly(hi, 0xD800 + (n - 0x10000) / 0x400);
    SpelledExactly(lo, 0xDC00 + (n - 0x10000) % 0x400);
    PairIs(hi, lo, n);
    var body := PieceText(Pair(hi, lo));
    PairBody(hi, lo);
    QuotedParses(body);
    PieceComplete(Pair(hi, lo), "\"");
    LastPiece(body + "\"", n as char);
  }

  // ----- Numbers -----

  /** An integer is taken exactly in its shortest form and within the safe range. */
  lemma IntegerExactly(digits: string, neg: bool)
    requires digits != "" && forall i :: 0 <= i < |digits| ==> '0' <= digits[i] <= '9'
    ensures var n: int := Read(digits);
            Parse((if neg then "-" else "") + digits) ==
            if (digits == "0" || digits[0] != '0') && n <= 9007199254740991
            then Ok(Integer(if neg then -n else n)) else Err(CanonicalizationFailed)
  {
    var s := (if neg then "-" else "") + digits;
    assert AllDigits(digits);
    UnsignedExactly(digits, neg);
    if neg {
      assert s[1..] == digits;
    } else {
      assert s == digits;
    }
    NumberParses(s, ParseUnsigned(digits, neg));
  }

  lemma NumberParses(s: string, r: Parsed<JcsValue>)
    requires s != "" && (s[0] == '-' || IsDigit(s[0])) && ParseNumber(s) == r
    ensures Parse(s) == if r.Fail? || SkipWs(r.rest) != [] then Err(CanonicalizationFailed) else Ok(r.value)
  {
    assert SkipWs(s) == s;
    assert ParseValue(s, 0) == ParseNumber(s);
  }

  lemma ZeroExactly(digits: string, neg: bool)
    requires digits != "" && AllDigits(digits) && digits[0] == '0'
    ensures var r := ParseUnsigned(digits, neg);
            if digits == "0" then r == Done(Integer(0), []) else r.Fail? || SkipWs(r.rest) != []
    ensures digits == "0" ==> Read(digits) == 0
  {
    if |digits| > 1 {
      assert digits[1..][0] == digits[1];
    } else {
      assert digits == "0";
      assert digits[..1] == digits && digits[1..] == [];
      assert digits[..|digits| - 1] == [];
      assert Read(digits) == Read([]) * 10 + DigitValue('0');
    }
  }

  lemma UnsignedExactly(digits: string, neg: bool)
    requires digits != "" && AllDigits(digits)
    ensures var r := ParseUnsigned(digits, neg);
            var n: int := Read(digits);
            if (digits == "0" || digits[0] != '0') && n <= 9007199254740991
            then r == Done(Integer(if neg then -n else n), [])
            else r.Fail? || SkipWs(r.rest) != []
  {
    if digits[0] == '0' {
      ZeroExactly(digits, neg);
    } else {
      assert digits + [] == digits;
      DigitRunExact(digits, []);
      assert digits[..|digits|] == digits && digits[|digits|..] == [];
    }
  }

  // ----- Nesting -----

  function Repeat(c: char, n: nat): string {
    if n == 0 then "" else [c] + Repeat(c, n - 1)
  }

  function NestedArrays(n: nat): JcsValue
  {
    if n <= 1 then Array([]) else Array([NestedArrays(n - 1)])
  }

  lemma OpenFirst(n: nat, rest: string)
    requires n > 0
    ensures var s := Repeat('[', n) + rest;
            s != "" && s[0] == '[' && s[1..] == Repeat('[', n - 1) + rest && SkipWs(s) == s
  {
  }

  lemma {:induction false} TooDeep(n: nat, depth: nat, rest: string)
    requires n > 0 && depth <= 128 && n + depth > 128
    ensures ParseValue(Repeat('[', n) + rest, depth) == Fail
    decreases n
  {
    OpenFirst(n, rest);
    if depth < 128 {
      var u := Repeat('[', n - 1) + rest;
      OpenFirst(n - 1, rest);
      TooDeep(n - 1, depth + 1, rest);
      assert ParseItems(u, depth + 1) == Fail;
      assert ParseArray(u, depth + 1) == Fail;
    }
  }

  lemma OneItem(u: string, depth: nat, v: JcsValue, rest: string)
    requires u != "" && u[0] == '[' && ParseValue(u, depth) == Done(v, "]" + rest)
    ensures ParseArray(u, depth) == Done(Array([v]), rest)
  {
    var t := "]" + rest;
    assert SkipWs(u) == u && SkipWs(t) == t && t[1..] == rest;
    assert ParseItems(u, depth) == Done([v], rest);
  }

  lemma {:induction false} DeepEnough(n: nat, depth: nat, rest: string)
    requires n > 0 && n + depth <= 128
    ensures ParseValue(Repeat('[', n) + (Repeat(']', n) + rest), depth) == Done(NestedArrays(n), rest)
    decreases n
  {
    OpenFirst(n, Repeat(']', n) + rest);
    CloseLast(n - 1, rest);
    var u := Repeat('[', n - 1) + (Repeat(']', n - 1) + ("]" + rest));
    if n == 1 {
      assert u == "]" + rest && u[1..] == rest;
      assert ParseArray(u, depth + 1) == Done(Array([]), rest);
    } else {
      OpenFirst(n - 1, Repeat(']', n - 1) + ("]" + rest));
      DeepEnough(n - 1, depth + 1, "]" + rest);
      OneItem(u, depth + 1, NestedArrays(n - 1), rest);
    }
  }

  lemma {:induction false} CloseLast(n: nat, rest: string)
    ensures Repeat(']', n + 1) + rest == Repeat(']', n) + ("]" + rest)
  {
    assert Repeat(']', n + 1) == "]" + Repeat(']', n);
    assert "]" + Repeat(']', n) + rest == "]" + (Repeat(']', n) + rest);
    if n == 0 {
      assert "]" + ("" + rest) == "" + ("]" + rest);
    } else {
      CloseLast(n - 1, rest);
      assert Repeat(']', n) == "]" + Repeat(']', n - 1);
      assert "]" + (Repeat(']', n - 1) + ("]" + rest)) == "]" + Repeat(']', n - 1) + ("]" + rest);
    }
  }

  /** Arrays are taken exactly up to 128 levels of nesting. */
  lemma NestingExactly(n: nat)
    requires n > 0
    ensures Parse(Repeat('[', n) + Repeat(']', n)) == if n <= 128 then Ok(NestedArrays(n)) else Err(CanonicalizationFailed)
  {
    var s := Repeat('[', n) + Repeat(']', n);
    assert s[0] == '[' && SkipWs(s) == s;
    if n <= 128 {
      DeepEnough(n, 0, "");
      assert Repeat(']', n) + "" == Repeat(']', n);
    } else {
      TooDeep(n, 0, Repeat(']', n));
    }
  }
}
