/**
 What the recursive-descent parser computes, as functions on the text still to be
 read, and the proof that it accepts exactly the grammar.
 */
module Recognizer {
  import opened Outcome
  import opened Decimal
  import opened Jcs
  import opened Grammar

  datatype Parsed<+T> = Fail | Done(value: T, rest: string)

  /** The outcome `p` with the elements `xs` read before it. */
  function Prepend<T>(xs: seq<T>, p: Parsed<seq<T>>): Parsed<seq<T>> {
    match p
    case Fail => Fail
    case Done(ys, rest) => Done(xs + ys, rest)
  }

  lemma PrependNone<T>(p: Parsed<seq<T>>)
    ensures Prepend([], p) == p
  {
    assert p.Done? ==> [] + p.value == p.value;
  }

  lemma PrependOneMore<T>(xs: seq<T>, x: T, p: Parsed<seq<T>>)
    ensures Prepend(xs, Prepend([x], p)) == Prepend(xs + [x], p)
  {
    assert p.Done? ==> xs + ([x] + p.value) == xs + [x] + p.value;
  }

  function SkipWs(s: string): (r: string)
    ensures |r| <= |s|
  {
    if s != [] && IsWs(s[0]) then SkipWs(s[1..]) else s
  }

  function ParseLiteral(s: string, literal: string, v: JcsValue): Parsed<JcsValue> {
    if literal <= s then Done(v, s[|literal|..]) else Fail
  }

  // ----- Strings -----

  function ReadHex4(s: string): Parsed<nat> {
    if |s| < 4 || !AllHex(s[..4]) then Fail else Done(HexRead(s[..4]), s[4..])
  }

  /** An escape whose `\u` has been consumed. */
  function ParseUnicodeEscape(s: string): (r: Parsed<char>)
    ensures r.Done? ==> |r.rest| < |s|
  {
    match ReadHex4(s)
    case Fail => Fail
    case Done(first, r) =>
      Hex4Bound(s[..4]);
      if IsHighSurrogate(first) then
        if |r| < 2 || r[0] != '\\' || r[1] != 'u' then Fail
        else match ReadHex4(r[2..])
          case Fail => Fail
          case Done(second, r2) =>
            if !IsLowSurrogate(second) then Fail
            else Done((0x10000 + (first - 0xD800) * 0x400 + (second - 0xDC00)) as char, r2)
      else if IsLowSurrogate(first) then Fail
      else Done(first as char, r)
  }

  /** One character of a string body, other than the closing quote. */
  function ParsePiece(s: string): (r: Parsed<char>)
    requires s != []
    ensures r.Done? ==> |r.rest| < |s|
  {
    if s[0] == '\\' then
      if |s| < 2 then Fail
      else if s[1] == 'u' then ParseUnicodeEscape(s[2..])
      else if ShortMeaning(s[1]) == [] then Fail
      else Done(ShortMeaning(s[1])[0], s[2..])
    else if s[0] as int <= 0x1F then Fail
    else Done(s[0], s[1..])
  }

  /** A string body up to and including the closing quote. */
  function ParseChars(s: string): (r: Parsed<string>)
    ensures r.Done? ==> |r.rest| < |s|
    decreases |s|
  {
    if s == [] then Fail
    else if s[0] == '"' then Done([], s[1..])
    else match ParsePiece(s)
      case Fail => Fail
      case Done(c, r) =>
        Prepend([c], ParseChars(r))
  }

  function ParseString(s: string): (r: Parsed<string>)
    ensures r.Done? ==> |r.rest| < |s|
  {
    if s == [] || s[0] != '"' then Fail else ParseChars(s[1..])
  }

  // ----- Numbers -----

  /** How many digits `s` starts with. */
  function DigitRun(s: string): (k: nat)
    ensures k <= |s| && AllDigits(s[..k])
    ensures k < |s| ==> !IsDigit(s[k])
  {
    if s == [] || !IsDigit(s[0]) then 0 else 1 + DigitRun(s[1..])
  }

  /** Rust's `str::parse::<i64>` on an optional sign and digits. */
  function ParseI64(neg: bool, digits: string): Option<int>
    requires AllDigits(digits)
  {
    var n: int := Read(digits);
    var i := if neg then -n else n;
    if IsI64(i) then Some(i) else None
  }

  predicate StartsNonInteger(s: string) {
    s != [] && (s[0] == '.' || s[0] == 'e' || s[0] == 'E')
  }

  function ParseNumber(s: string): (r: Parsed<JcsValue>)
    requires s != []
    ensures r.Done? ==> |r.rest| < |s|
  {
    if s[0] == '-' then ParseUnsigned(s[1..], true) else ParseUnsigned(s, false)
  }

  /** A number whose sign has been consumed. */
  function ParseUnsigned(u: string, neg: bool): (r: Parsed<JcsValue>)
    ensures r.Done? ==> |r.rest| < |u|
  {
    if u == [] || !IsDigit(u[0]) then Fail
    else
      var k := if u[0] == '0' then 1 else DigitRun(u);
      if StartsNonInteger(u[k..]) then Fail
      else match ParseI64(neg, u[..k])
        case None => Fail
        case Some(i) => if IsSafeInteger(i) then Done(Integer(i), u[k..]) else Fail
  }

  // ----- Values -----

  function ParseValue(s: string, depth: nat): (r: Parsed<JcsValue>)
    ensures r.Done? ==> |r.rest| < |s|
    decreases |s|, 0
  {
    if s == [] then Fail
    else if s[0] == '{' then if depth >= MAX_PARSE_DEPTH then Fail else ParseObject(s[1..], depth + 1)
    else if s[0] == '[' then if depth >= MAX_PARSE_DEPTH then Fail else ParseArray(s[1..], depth + 1)
    else if s[0] == '"' then
      match ParseString(s)
      case Fail => Fail
      case Done(cs, r) => Done(String(cs), r)
    else if s[0] == 't' then ParseLiteral(s, "true", Bool(true))
    else if s[0] == 'f' then ParseLiteral(s, "false", Bool(false))
    else if s[0] == 'n' then ParseLiteral(s, "null", Null)
    else if s[0] == '-' || IsDigit(s[0]) then ParseNumber(s)
    else Fail
  }

  /** An array whose `[` has been consumed. */
  function ParseArray(s: string, depth: nat): (r: Parsed<JcsValue>)
    ensures r.Done? ==> |r.rest| < |s|
    decreases |s|, 2
  {
    var u := SkipWs(s);
    if u != [] && u[0] == ']' then Done(Array([]), u[1..])
    else match ParseItems(u, depth)
      case Fail => Fail
      case Done(items, r) => Done(Array(items), r)
  }

  function ParseItems(s: string, depth: nat): (r: Parsed<seq<JcsValue>>)
    ensures r.Done? ==> |r.rest| < |s|
    decreases |s|, 1
  {
    match ParseValue(SkipWs(s), depth)
    case Fail => Fail
    case Done(v, r) =>
      var u := SkipWs(r);
      if u == [] then Fail
      else if u[0] == ',' then
        Prepend([v], ParseItems(u[1..], depth))
      else if u[0] == ']' then Done([v], u[1..])
      else Fail
  }

  /** An object whose `{` has been consumed. */
  function ParseObject(s: string, depth: nat): (r: Parsed<JcsValue>)
    ensures r.Done? ==> |r.rest| < |s|
    decreases |s|, 2
  {
    var u := SkipWs(s);
    if u != [] && u[0] == '}' then Done(Object([]), u[1..])
    else match ParseMembers(u, depth, {})
      case Fail => Fail
      case Done(ms, r) => Done(Object(ms), r)
  }

  /** A member name, its colon and the white space up to the value. */
  function ParseKey(s: string): (r: Parsed<string>)
    ensures r.Done? ==> |r.rest| < |s|
  {
    match ParseString(SkipWs(s))
    case Fail => Fail
    case Done(key, r) =>
      var u := SkipWs(r);
      if u == [] || u[0] != ':' then Fail else Done(key, SkipWs(u[1..]))
  }

  function ParseMembers(s: string, depth: nat, seen: set<string>): (r: Parsed<seq<Member>>)
    ensures r.Done? ==> |r.rest| < |s|
    decreases |s|, 1
  {
    match ParseKey(s)
    case Fail => Fail
    case Done(key, r0) =>
      if key in seen then Fail
      else match ParseValue(r0, depth)
        case Fail => Fail
        case Done(v, r) =>
          var u := SkipWs(r);
          if u == [] then Fail
          else if u[0] == ',' then
            Prepend([Member(key, v)], ParseMembers(u[1..], depth, seen + {key}))
          else if u[0] == '}' then Done([Member(key, v)], u[1..])
          else Fail
  }

  function Parse(s: string): Result<JcsValue> {
    match ParseValue(SkipWs(s), 0)
    case Fail => Err(CanonicalizationFailed)
    case Done(v, r) => if SkipWs(r) == [] then Ok(v) else Err(CanonicalizationFailed)
  }

  // ----- White space -----

  lemma {:induction false} SkipWsSplit(s: string) returns (ws: string)
    ensures AllWs(ws) && s == ws + SkipWs(s)
    ensures SkipWs(s) != [] ==> !IsWs(SkipWs(s)[0])
  {
    if s != [] && IsWs(s[0]) {
      var t := SkipWsSplit(s[1..]);
      ws := [s[0]] + t;
    } else {
      ws := [];
    }
  }

  lemma {:induction false} SkipWsPrefix(ws: string, s: string)
    requires AllWs(ws)
    requires s != [] ==> !IsWs(s[0])
    ensures SkipWs(ws + s) == s
  {
    if ws == [] {
      assert ws + s == s;
    } else {
      assert (ws + s)[1..] == ws[1..] + s;
      SkipWsPrefix(ws[1..], s);
    }
  }

  /** The white space skipped before the first element may be skipped twice. */
  lemma SkipWsTwice(s: string, depth: nat)
    ensures ParseItems(SkipWs(s), depth) == ParseItems(s, depth)
    ensures ParseMembers(SkipWs(s), depth, {}) == ParseMembers(s, depth, {})
  {
    var ws := SkipWsSplit(s);
    assert SkipWs(SkipWs(s)) == SkipWs(s);
  }

  // ----- The parser accepts every text of the grammar -----

  lemma Hex4Complete(h: string, rest: string)
    requires IsHex4(h)
    ensures ReadHex4(h + rest) == Done(HexRead(h), rest)
  {
    assert (h + rest)[..4] == h && (h + rest)[4..] == rest;
  }

  lemma PairComplete(hi: string, lo: string, rest: string)
    requires ValidPiece(Pair(hi, lo))
    ensures ParseUnicodeEscape(hi + ("\\u" + (lo + rest))) == Done(PieceChar(Pair(hi, lo)), rest)
  {
    var tail := "\\u" + (lo + rest);
    Hex4Complete(hi, tail);
    Hex4Complete(lo, rest);
    assert tail[2..] == lo + rest;
  }

  lemma UnitComplete(h: string, rest: string)
    requires ValidPiece(Unit(h))
    ensures ParseUnicodeEscape(h + rest) == Done(PieceChar(Unit(h)), rest)
  {
    Hex4Complete(h, rest);
  }

  /** A unicode escape is parsed from what follows its two introducing characters. */
  lemma EscapeStart(s: string, body: string)
    requires s == "\\u" + body
    ensures s[0] != '"' && ParsePiece(s) == ParseUnicodeEscape(body)
  {
    assert s[2..] == body;
  }

  lemma PlainPieceComplete(p: Piece, rest: string)
    requires ValidPiece(p) && (p.Raw? || p.Short?)
    ensures var s := PieceText(p) + rest;
            s[0] != '"' && ParsePiece(s) == Done(PieceChar(p), rest)
  {
    var s := PieceText(p) + rest;
    assert s[if p.Raw? then 1 else 2..] == rest;
  }

  lemma UnitPieceComplete(h: string, rest: string)
    requires ValidPiece(Unit(h))
    ensures var s := PieceText(Unit(h)) + rest;
            s[0] != '"' && ParsePiece(s) == Done(PieceChar(Unit(h)), rest)
  {
    UnitComplete(h, rest);
    Regroup("\\u", h, "", "", rest);
    EscapeStart(PieceText(Unit(h)) + rest, h + rest);
  }

  lemma PairPieceComplete(hi: string, lo: string, rest: string)
    requires ValidPiece(Pair(hi, lo))
    ensures var s := PieceText(Pair(hi, lo)) + rest;
            s[0] != '"' && ParsePiece(s) == Done(PieceChar(Pair(hi, lo)), rest)
  {
    PairComplete(hi, lo, rest);
    Regroup("\\u", hi, "\\u", lo, rest);
    EscapeStart(PieceText(Pair(hi, lo)) + rest, hi + ("\\u" + (lo + rest)));
  }

  lemma Regroup(a: string, b: string, c: string, d: string, e: string)
    ensures a + b + c + d + e == a + (b + (c + (d + e)))
    ensures a + b + e == a + (b + e)
  {
  }

  lemma PieceComplete(p: Piece, rest: string)
    requires ValidPiece(p)
    ensures var s := PieceText(p) + rest;
            s[0] != '"' && ParsePiece(s) == Done(PieceChar(p), rest)
  {
    match p
    case Unit(h) => UnitPieceComplete(h, rest);
    case Pair(hi, lo) => PairPieceComplete(hi, lo, rest);
    case _ => PlainPieceComplete(p, rest);
  }

  lemma {:induction false} CharsComplete(ps: seq<Piece>, rest: string)
    requires ValidPieces(ps)
    ensures ParseChars(PiecesThen(ps, "\"" + rest)) == Done(PiecesValue(ps), rest)
  {
    if ps != [] {
      PieceComplete(ps[0], PiecesThen(ps[1..], "\"" + rest));
      CharsComplete(ps[1..], rest);
    }
  }

  lemma StringComplete(ps: seq<Piece>, rest: string)
    requires ValidPieces(ps)
    ensures ParseString(StringThen(ps, rest)) == Done(PiecesValue(ps), rest)
  {
    CharsComplete(ps, rest);
    assert StringThen(ps, rest)[1..] == PiecesThen(ps, "\"" + rest);
  }

  lemma {:induction false} DigitRunExact(digits: string, rest: string)
    requires AllDigits(digits) && (rest != [] ==> !IsDigit(rest[0]))
    ensures DigitRun(digits + rest) == |digits|
  {
    if digits == [] {
      assert digits + rest == rest;
    } else {
      assert (digits + rest)[1..] == digits[1..] + rest;
      DigitRunExact(digits[1..], rest);
    }
  }

  /** What may follow the text of `t`: a number must not run on. */
  predicate Follows(t: Tree, rest: string) {
    t.TNumber? && rest != [] ==> !IsDigit(rest[0]) && !StartsNonInteger(rest)
  }

  lemma UnsignedComplete(neg: bool, digits: string, rest: string)
    requires Shortest(digits) && Follows(TNumber(neg, digits), rest)
    ensures ParseUnsigned(digits + rest, neg) == Expected(TNumber(neg, digits), rest)
  {
    var u := digits + rest;
    DigitRunExact(digits, rest);
    assert u[0] == digits[0] && u[..|digits|] == digits && u[|digits|..] == rest;
  }

  lemma NumberComplete(t: Tree, rest: string)
    requires t.TNumber? && Shortest(t.digits) && Follows(t, rest)
    ensures TextThen(t, rest) != []
    ensures ParseNumber(TextThen(t, rest)) == Expected(t, rest)
  {
    UnsignedComplete(t.neg, t.digits, rest);
    var u := t.digits + rest;
    assert u[0] == t.digits[0];
    assert t.neg ==> TextThen(t, rest)[1..] == u;
    assert !t.neg ==> TextThen(t, rest) == u;
  }

  lemma TextStart(t: Tree, rest: string)
    requires t.TNumber? ==> Shortest(t.digits)
    ensures var s := TextThen(t, rest);
            s != [] && !IsWs(s[0]) && s[0] != ']' && s[0] != '}'
  {
    if t.TNumber? {
      assert TextThen(t, rest)[0] == if t.neg then '-' else t.digits[0];
    }
  }

  predicate ValidItems(items: seq<Item>, depth: nat) {
    forall i :: 0 <= i < |items| ==>
      AllWs(items[i].before) && AllWs(items[i].after) && Valid(items[i].value, depth)
  }

  predicate SafeItems(items: seq<Item>) {
    forall i :: 0 <= i < |items| ==> Safe(ValueOf(items[i].value))
  }

  predicate ValidFields(fs: seq<Field>, depth: nat, seen: set<string>) {
    && (forall i :: 0 <= i < |fs| ==> ValidField(fs[i], depth) && PiecesValue(fs[i].key) !in seen)
    && forall i, j :: 0 <= i < j < |fs| ==> PiecesValue(fs[i].key) != PiecesValue(fs[j].key)
  }

  predicate SafeFields(fs: seq<Field>) {
    forall i :: 0 <= i < |fs| ==> Safe(ValueOf(fs[i].value))
  }

  lemma SafeItemsStep(items: seq<Item>)
    requires items != []
    ensures SafeItems(items) <==> Safe(ValueOf(items[0].value)) && SafeItems(items[1..])
    ensures |items| == 1 ==> ItemsValue(items) == [ValueOf(items[0].value)] && SafeItems(items[1..])
  {
    assert items == [items[0]] + items[1..];
  }

  lemma SafeFieldsStep(fs: seq<Field>)
    requires fs != []
    ensures SafeFields(fs) <==> Safe(ValueOf(fs[0].value)) && SafeFields(fs[1..])
    ensures |fs| == 1 ==>
      FieldsValue(fs) == [Member(PiecesValue(fs[0].key), ValueOf(fs[0].value))] && SafeFields(fs[1..])
  {
    assert fs == [fs[0]] + fs[1..];
  }

  lemma SafeContainers(items: seq<Item>, fs: seq<Field>)
    ensures SafeItems(items) <==> Safe(Array(ItemsValue(items)))
    ensures SafeFields(fs) <==> Safe(Object(FieldsValue(fs)))
  {
    forall i | 0 <= i < |items| ensures ItemsValue(items)[i] == ValueOf(items[i].value) {}
    forall i | 0 <= i < |fs| ensures FieldsValue(fs)[i].value == ValueOf(fs[i].value) {}
  }

  /** The outcome on the text of a well-formed tree: only an unsafe integer makes it fail. */
  function Expected(t: Tree, rest: string): Parsed<JcsValue> {
    if Safe(ValueOf(t)) then Done(ValueOf(t), rest) else Fail
  }

  lemma LiteralComplete(t: Tree, depth: nat, rest: string)
    requires t.TNull? || t.TBool?
    ensures ParseValue(TextThen(t, rest), depth) == Expected(t, rest)
  {
    var s := TextThen(t, rest);
    match t
    case TNull => assert s[4..] == rest;
    case TBool(b) => assert s[if b then 4 else 5..] == rest;
  }

  lemma NumberLeafComplete(t: Tree, depth: nat, rest: string)
    requires t.TNumber? && Valid(t, depth) && Follows(t, rest)
    ensures ParseValue(TextThen(t, rest), depth) == Expected(t, rest)
  {
    NumberComplete(t, rest);
    assert TextThen(t, rest)[0] == if t.neg then '-' else t.digits[0];
  }

  lemma StringLeafComplete(t: Tree, depth: nat, rest: string)
    requires t.TString? && Valid(t, depth)
    ensures ParseValue(TextThen(t, rest), depth) == Expected(t, rest)
  {
    StringComplete(t.pieces, rest);
  }

  lemma LeafComplete(t: Tree, depth: nat, rest: string)
    requires t.TNull? || t.TBool? || t.TNumber? || t.TString?
    requires Valid(t, depth) && Follows(t, rest)
    ensures ParseValue(TextThen(t, rest), depth) == Expected(t, rest)
  {
    match t
    case TNumber(_, _) => NumberLeafComplete(t, depth, rest);
    case TString(_) => StringLeafComplete(t, depth, rest);
    case _ => LiteralComplete(t, depth, rest);
  }

  /** On the text of a well-formed tree the parser stops right behind it. */
  lemma {:induction false} ValueComplete(t: Tree, depth: nat, rest: string)
    requires Valid(t, depth) && Follows(t, rest)
    ensures ParseValue(TextThen(t, rest), depth) == Expected(t, rest)
    decreases t, 1
  {
    var s := TextThen(t, rest);
    match t
    case TArray(pad, items) =>
      if items == [] {
        assert s[1..] == pad + ("]" + rest);
        SkipWsPrefix(pad, "]" + rest);
      } else {
        assert s[1..] == ItemsThen(items, rest);
        ArrayComplete(pad, items, depth + 1, rest);
      }
    case TObject(pad, fs) =>
      if fs == [] {
        assert s[1..] == pad + ("}" + rest);
        SkipWsPrefix(pad, "}" + rest);
      } else {
        assert s[1..] == FieldsThen(fs, rest);
        ObjectComplete(pad, fs, depth + 1, rest);
      }
    case _ => LeafComplete(t, depth, rest);
  }

  lemma {:induction false} ArrayComplete(pad: string, items: seq<Item>, depth: nat, rest: string)
    requires items != [] && ValidItems(items, depth)
    ensures ParseArray(ItemsThen(items, rest), depth) == Expected(TArray(pad, items), rest)
    decreases items, 1
  {
    ItemsComplete(items, depth, rest);
    SkipWsTwice(ItemsThen(items, rest), depth);
    SafeContainers(items, []);
  }

  lemma {:induction false} ObjectComplete(pad: string, fs: seq<Field>, depth: nat, rest: string)
    requires fs != [] && ValidFields(fs, depth, {})
    ensures ParseObject(FieldsThen(fs, rest), depth) == Expected(TObject(pad, fs), rest)
    decreases fs, 1
  {
    FieldsComplete(fs, depth, rest, {});
    SkipWsTwice(FieldsThen(fs, rest), depth);
    SafeContainers([], fs);
  }

  /** One item and the white space behind it, up to the separator. */
  lemma {:induction false} ItemComplete(it: Item, depth: nat, tail: string)
    requires AllWs(it.before) && AllWs(it.after) && Valid(it.value, depth)
    requires tail != [] && (tail[0] == ',' || tail[0] == ']')
    ensures var text := TextThen(it.value, it.after + tail);
            && SkipWs(it.before + text) == text
            && text != [] && text[0] != ']'
            && ParseValue(text, depth) == Expected(it.value, it.after + tail)
            && SkipWs(it.after + tail) == tail
    decreases it, 0
  {
    var text := TextThen(it.value, it.after + tail);
    TextStart(it.value, it.after + tail);
    SkipWsPrefix(it.before, text);
    ValueComplete(it.value, depth, it.after + tail);
    SkipWsPrefix(it.after, tail);
  }

  lemma {:induction false} ItemsComplete(items: seq<Item>, depth: nat, rest: string)
    requires items != [] && ValidItems(items, depth)
    ensures var s := ItemsThen(items, rest);
            && ParseItems(s, depth) == (if SafeItems(items) then Done(ItemsValue(items), rest) else Fail)
            && SkipWs(s) != [] && SkipWs(s)[0] != ']'
    decreases items, 0
  {
    var it := items[0];
    var tail := if |items| == 1 then "]" + rest else "," + ItemsThen(items[1..], rest);
    ItemComplete(it, depth, tail);
    SafeItemsStep(items);
    if |items| > 1 {
      assert tail[1..] == ItemsThen(items[1..], rest);
      ItemsComplete(items[1..], depth, rest);
    } else {
      assert tail[1..] == rest;
    }
  }

  lemma ColonComplete(gap1: string, gap2: string, rest: string)
    requires AllWs(gap1) && AllWs(gap2) && rest != [] && !IsWs(rest[0])
    ensures var u := SkipWs(gap1 + (":" + (gap2 + rest)));
            u != [] && u[0] == ':' && SkipWs(u[1..]) == rest
  {
    var u := ":" + (gap2 + rest);
    SkipWsPrefix(gap1, u);
    assert u[1..] == gap2 + rest;
    SkipWsPrefix(gap2, rest);
  }

  lemma KeyComplete(f: Field, rest: string)
    requires AllWs(f.before) && AllWs(f.gap1) && AllWs(f.gap2) && ValidPieces(f.key)
    requires rest != [] && !IsWs(rest[0])
    ensures var s := f.before + StringThen(f.key, f.gap1 + (":" + (f.gap2 + rest)));
            && ParseKey(s) == Done(PiecesValue(f.key), rest)
            && SkipWs(s) != [] && SkipWs(s)[0] == '"'
  {
    var body := f.gap1 + (":" + (f.gap2 + rest));
    var lit := StringThen(f.key, body);
    SkipWsPrefix(f.before, lit);
    StringComplete(f.key, body);
    ColonComplete(f.gap1, f.gap2, rest);
  }

  /** One member and the white space behind it, up to the separator. */
  lemma {:induction false} FieldComplete(f: Field, depth: nat, tail: string)
    requires ValidField(f, depth) && tail != [] && (tail[0] == ',' || tail[0] == '}')
    ensures var text := TextThen(f.value, f.after + tail);
            var s := f.before + StringThen(f.key, f.gap1 + (":" + (f.gap2 + text)));
            && ParseKey(s) == Done(PiecesValue(f.key), text)
            && SkipWs(s) != [] && SkipWs(s)[0] == '"'
            && ParseValue(text, depth) == Expected(f.value, f.after + tail)
            && SkipWs(f.after + tail) == tail
    decreases f, 0
  {
    assert Valid(f.value, depth);
    TextStart(f.value, f.after + tail);
    KeyComplete(f, TextThen(f.value, f.after + tail));
    ValueComplete(f.value, depth, f.after + tail);
    SkipWsPrefix(f.after, tail);
  }

  lemma {:induction false} FieldsComplete(fs: seq<Field>, depth: nat, rest: string, seen: set<string>)
    requires fs != [] && ValidFields(fs, depth, seen)
    ensures var s := FieldsThen(fs, rest);
            && ParseMembers(s, depth, seen) == (if SafeFields(fs) then Done(FieldsValue(fs), rest) else Fail)
            && SkipWs(s) != [] && SkipWs(s)[0] != '}'
    decreases fs, 0
  {
    SafeFieldsStep(fs);
    if |fs| > 1 {
      var tail := "," + FieldsThen(fs[1..], rest);
      FieldComplete(fs[0], depth, tail);
      assert tail[1..] == FieldsThen(fs[1..], rest);
      FieldsComplete(fs[1..], depth, rest, seen + {PiecesValue(fs[0].key)});
    } else {
      var tail := "}" + rest;
      FieldComplete(fs[0], depth, tail);
      assert tail[1..] == rest;
    }
  }

  // ----- Every accepted text is a text of the grammar -----

  lemma Hex4Sound(s: string)
    requires ReadHex4(s).Done?
    ensures IsHex4(s[..4]) && s == s[..4] + ReadHex4(s).rest
  {
  }

  lemma PairText(s: string, r: string, hi: string, lo: string, rest: string)
    requires s == hi + r && |r| >= 2 && r[0] == '\\' && r[1] == 'u' && r[2..] == lo + rest
    ensures ['\\', 'u'] + s == PieceText(Pair(hi, lo)) + rest
  {
    assert r == "\\u" + (lo + rest);
    Regroup("\\u", hi, "\\u", lo, rest);
  }

  lemma UnicodeSound(s: string) returns (p: Piece)
    requires ParseUnicodeEscape(s).Done?
    ensures ValidPiece(p) && PieceChar(p) == ParseUnicodeEscape(s).value
    ensures ['\\', 'u'] + s == PieceText(p) + ParseUnicodeEscape(s).rest
  {
    Hex4Sound(s);
    var r := s[4..];
    if IsHighSurrogate(HexRead(s[..4])) {
      Hex4Sound(r[2..]);
      p := Pair(s[..4], r[2..][..4]);
      PairText(s, r, s[..4], r[2..][..4], r[2..][4..]);
    } else {
      p := Unit(s[..4]);
    }
  }

  lemma PieceSound(s: string) returns (p: Piece)
    requires s != [] && s[0] != '"' && ParsePiece(s).Done?
    ensures ValidPiece(p) && PieceChar(p) == ParsePiece(s).value
    ensures s == PieceText(p) + ParsePiece(s).rest
  {
    if s[0] == '\\' {
      assert s == ['\\', s[1]] + s[2..];
      if s[1] == 'u' {
        p := UnicodeSound(s[2..]);
      } else {
        p := Short(s[1]);
      }
    } else {
      p := Raw(s[0]);
    }
  }

  lemma {:induction false} CharsSound(s: string) returns (ps: seq<Piece>)
    requires ParseChars(s).Done?
    ensures ValidPieces(ps) && PiecesValue(ps) == ParseChars(s).value
    ensures s == PiecesThen(ps, "\"" + ParseChars(s).rest)
    decreases |s|
  {
    if s[0] == '"' {
      ps := [];
    } else {
      var p := PieceSound(s);
      var tail := CharsSound(ParsePiece(s).rest);
      ps := [p] + tail;
    }
  }

  lemma StringSound(s: string) returns (ps: seq<Piece>)
    requires ParseString(s).Done?
    ensures ValidPieces(ps) && PiecesValue(ps) == ParseString(s).value
    ensures s == StringThen(ps, ParseString(s).rest)
  {
    ps := CharsSound(s[1..]);
    assert s == "\"" + s[1..];
  }

  lemma UnsignedSound(u: string, neg: bool) returns (digits: string)
    requires ParseUnsigned(u, neg).Done?
    ensures Shortest(digits) && u == digits + ParseUnsigned(u, neg).rest
    ensures ValueOf(TNumber(neg, digits)) == ParseUnsigned(u, neg).value && Safe(ParseUnsigned(u, neg).value)
  {
    var k := if u[0] == '0' then 1 else DigitRun(u);
    digits := u[..k];
    assert digits[0] == u[0];
  }

  lemma NumberSound(s: string) returns (t: Tree)
    requires s != [] && ParseNumber(s).Done?
    ensures t.TNumber? && Shortest(t.digits) && ValueOf(t) == ParseNumber(s).value && Safe(ParseNumber(s).value)
    ensures s == TextThen(t, ParseNumber(s).rest)
  {
    var neg := s[0] == '-';
    var u := if neg then s[1..] else s;
    var digits := UnsignedSound(u, neg);
    t := TNumber(neg, digits);
    assert s == (if neg then "-" else "") + u;
  }

  /** The text consumed by a successful parse is the text of a tree with the returned value. */
  lemma {:induction false} ValueSound(s: string, depth: nat) returns (t: Tree)
    requires ParseValue(s, depth).Done?
    ensures var r := ParseValue(s, depth);
            Valid(t, depth) && ValueOf(t) == r.value && Safe(r.value) && s == TextThen(t, r.rest)
    decreases |s|, 0
  {
    assert s == [s[0]] + s[1..];
    if s[0] == '{' {
      var pad, fs := ObjectSound(s[1..], depth + 1);
      t := TObject(pad, fs);
      SafeContainers([], fs);
    } else if s[0] == '[' {
      var pad, items := ArraySound(s[1..], depth + 1);
      t := TArray(pad, items);
      SafeContainers(items, []);
    } else {
      t := LeafSound(s, depth);
    }
  }

  lemma LeafSound(s: string, depth: nat) returns (t: Tree)
    requires s != [] && s[0] != '{' && s[0] != '[' && ParseValue(s, depth).Done?
    ensures var r := ParseValue(s, depth);
            Valid(t, depth) && ValueOf(t) == r.value && Safe(r.value) && s == TextThen(t, r.rest)
  {
    if s[0] == '"' {
      var ps := StringSound(s);
      t := TString(ps);
    } else if s[0] == '-' || IsDigit(s[0]) {
      t := NumberSound(s);
    } else {
      t := if s[0] == 't' then TBool(true) else if s[0] == 'f' then TBool(false) else TNull;
    }
  }

  lemma {:induction false} ArraySound(s: string, depth: nat) returns (pad: string, items: seq<Item>)
    requires ParseArray(s, depth).Done?
    ensures var r := ParseArray(s, depth);
            && AllWs(pad) && ValidItems(items, depth) && SafeItems(items)
            && r.value == Array(ItemsValue(items)) && s == (if items == [] then pad + ("]" + r.rest) else ItemsThen(items, r.rest))
    decreases |s|, 2
  {
    pad := SkipWsSplit(s);
    var u := SkipWs(s);
    if u != [] && u[0] == ']' {
      items := [];
      assert u == "]" + u[1..];
    } else {
      SkipWsTwice(s, depth);
      items := ItemsSound(s, depth);
    }
  }

  lemma {:induction false} ItemsSound(s: string, depth: nat) returns (items: seq<Item>)
    requires ParseItems(s, depth).Done?
    ensures var r := ParseItems(s, depth);
            && items != [] && ValidItems(items, depth) && SafeItems(items)
            && ItemsValue(items) == r.value && s == ItemsThen(items, r.rest)
    decreases |s|, 1
  {
    var before := SkipWsSplit(s);
    var v := ParseValue(SkipWs(s), depth);
    var t := ValueSound(SkipWs(s), depth);
    var after := SkipWsSplit(v.rest);
    var u := SkipWs(v.rest);
    assert u == [u[0]] + u[1..];
    var it := Item(before, t, after);
    if u[0] == ',' {
      var tail := ItemsSound(u[1..], depth);
      items := [it] + tail;
      assert items[1..] == tail;
      SafeItemsStep(items);
    } else {
      items := [it];
      SafeItemsStep(items);
    }
  }

  lemma {:induction false} ObjectSound(s: string, depth: nat) returns (pad: string, fs: seq<Field>)
    requires ParseObject(s, depth).Done?
    ensures var r := ParseObject(s, depth);
            && AllWs(pad) && ValidFields(fs, depth, {}) && SafeFields(fs)
            && r.value == Object(FieldsValue(fs)) && s == (if fs == [] then pad + ("}" + r.rest) else FieldsThen(fs, r.rest))
    decreases |s|, 2
  {
    pad := SkipWsSplit(s);
    var u := SkipWs(s);
    if u != [] && u[0] == '}' {
      fs := [];
      assert u == "}" + u[1..];
    } else {
      SkipWsTwice(s, depth);
      fs := FieldsSound(s, depth, {});
    }
  }

  lemma KeySound(s: string) returns (before: string, key: seq<Piece>, gap1: string, gap2: string)
    requires ParseKey(s).Done?
    ensures AllWs(before) && AllWs(gap1) && AllWs(gap2) && ValidPieces(key)
    ensures PiecesValue(key) == ParseKey(s).value
    ensures s == before + StringThen(key, gap1 + (":" + (gap2 + ParseKey(s).rest)))
  {
    before := SkipWsSplit(s);
    key := StringSound(SkipWs(s));
    var r := ParseString(SkipWs(s)).rest;
    gap1 := SkipWsSplit(r);
    var u := SkipWs(r);
    assert u == ":" + u[1..];
    gap2 := SkipWsSplit(u[1..]);
  }

  /** One member, up to the separator behind it. */
  lemma {:induction false} FieldSound(s: string, depth: nat) returns (f: Field)
    requires ParseKey(s).Done? && ParseValue(ParseKey(s).rest, depth).Done?
    ensures var k := ParseKey(s);
            var v := ParseValue(k.rest, depth);
            && ValidField(f, depth) && PiecesValue(f.key) == k.value
            && ValueOf(f.value) == v.value && Safe(v.value)
            && s == f.before + StringThen(f.key, f.gap1 + (":" + (f.gap2 + TextThen(f.value, f.after + SkipWs(v.rest)))))
    decreases |s|, 0
  {
    var before, key, gap1, gap2 := KeySound(s);
    var t := ValueSound(ParseKey(s).rest, depth);
    var after := SkipWsSplit(ParseValue(ParseKey(s).rest, depth).rest);
    f := Field(before, key, gap1, gap2, t, after);
  }

  lemma {:induction false} FieldsSound(s: string, depth: nat, seen: set<string>) returns (fs: seq<Field>)
    requires ParseMembers(s, depth, seen).Done?
    ensures var r := ParseMembers(s, depth, seen);
            && fs != [] && ValidFields(fs, depth, seen) && SafeFields(fs)
            && FieldsValue(fs) == r.value && s == FieldsThen(fs, r.rest)
    decreases |s|, 1
  {
    var f := FieldSound(s, depth);
    var u := SkipWs(ParseValue(ParseKey(s).rest, depth).rest);
    assert u == [u[0]] + u[1..];
    if u[0] == ',' {
      var tail := FieldsSound(u[1..], depth, seen + {ParseKey(s).value});
      fs := [f] + tail;
      assert fs[1..] == tail;
      ValidFieldsStep(f, tail, depth, seen);
    } else {
      fs := [f];
    }
    SafeFieldsStep(fs);
  }

  lemma ValidFieldsStep(f: Field, tail: seq<Field>, depth: nat, seen: set<string>)
    requires ValidField(f, depth) && PiecesValue(f.key) !in seen
    requires ValidFields(tail, depth, seen + {PiecesValue(f.key)})
    ensures ValidFields([f] + tail, depth, seen)
  {
  }

  // ----- The parser decides the grammar -----

  /** A text is accepted with value `v` exactly when the grammar derives `v` from it. */
  lemma ParseDecidesGrammar(s: string, v: JcsValue)
    ensures Parse(s) == Ok(v) <==> Derives(s, v)
  {
    if Parse(s) == Ok(v) {
      var before := SkipWsSplit(s);
      var t := ValueSound(SkipWs(s), 0);
      var after := SkipWsSplit(ParseValue(SkipWs(s), 0).rest);
      assert after + [] == after;
    }
    if Derives(s, v) {
      var before: string, t: Tree, after: string :|
        && AllWs(before) && AllWs(after) && Valid(t, 0)
        && s == before + TextThen(t, after) && ValueOf(t) == v && Safe(v);
      ParseTree(before, t, after);
    }
  }

  /** A well-formed tree between white space is accepted exactly when its integers are safe. */
  lemma ParseTree(before: string, t: Tree, after: string)
    requires AllWs(before) && AllWs(after) && Valid(t, 0)
    ensures Parse(before + TextThen(t, after)) ==
            if Safe(ValueOf(t)) then Ok(ValueOf(t)) else Err(CanonicalizationFailed)
  {
    TextStart(t, after);
    SkipWsPrefix(before, TextThen(t, after));
    ValueComplete(t, 0, after);
    SkipWsPrefix(after, []);
    assert after + [] == after;
  }

  /** Whatever was parsed can be printed again, and all its integers are safe. */
  lemma ParsedInDomain(s: string)
    requires Parse(s).Ok?
    ensures Printable(Parse(s).value, 0) && Safe(Parse(s).value)
  {
    var t := ValueSound(SkipWs(s), 0);
    ValidPrintable(t, 0);
  }

  lemma {:induction false} ValidPrintable(t: Tree, depth: nat)
    requires Valid(t, depth)
    ensures Printable(ValueOf(t), depth)
  {
    match t
    case TArray(_, items) =>
      forall i | 0 <= i < |items| ensures Printable(ItemsValue(items)[i], depth + 1) {
        ValidPrintable(items[i].value, depth + 1);
      }
    case TObject(_, fs) =>
      forall i | 0 <= i < |fs| ensures Printable(FieldsValue(fs)[i].value, depth + 1) {
        assert ValidField(fs[i], depth + 1);
        ValidPrintable(fs[i].value, depth + 1);
      }
    case _ =>
  }
}
