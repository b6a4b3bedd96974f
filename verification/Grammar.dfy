/**
 The texts of RFC 8259 sections 2 to 7, without fraction and exponent, as concrete
 syntax trees. A tree keeps every choice the text makes: white space, escapes,
 the sign of zero. `TextThen(t, rest)` is the text of `t` followed by `rest`.
 */
module Grammar {
  import opened Decimal
  import opened Jcs

  // ----- Strings -----

  /** One character of a string literal. */
  datatype Piece =
    | Raw(c: char)                    // the character itself
    | Short(e: char)                  // \e
    | Unit(h: string)                 // \uhhhh, not a surrogate
    | Pair(hi: string, lo: string)    // \uhhhh\uhhhh, a surrogate pair

  predicate IsHex(c: char) { '0' <= c <= '9' || 'a' <= c <= 'f' || 'A' <= c <= 'F' }

  function HexDigit(c: char): (d: nat)
    requires IsHex(c)
    ensures d < 16
  {
    if c <= '9' then c as int - '0' as int
    else if c <= 'F' then c as int - 'A' as int + 10
    else c as int - 'a' as int + 10
  }

  predicate AllHex(s: string) { forall i :: 0 <= i < |s| ==> IsHex(s[i]) }

  function HexRead(s: string): nat
    requires AllHex(s)
  {
    if s == [] then 0 else HexRead(s[..|s|-1]) * 16 + HexDigit(s[|s|-1])
  }

  predicate IsHex4(s: string) { |s| == 4 && AllHex(s) }

  predicate IsHighSurrogate(n: int) { 0xD800 <= n <= 0xDBFF }

  predicate IsLowSurrogate(n: int) { 0xDC00 <= n <= 0xDFFF }

  lemma {:induction false} HexReadBound(s: string)
    requires AllHex(s) && |s| <= 3
    ensures HexRead(s) < [1, 0x10, 0x100, 0x1000][|s|]
  {
    if s != [] {
      HexReadBound(s[..|s|-1]);
    }
  }

  lemma Hex4Bound(s: string)
    requires IsHex4(s)
    ensures HexRead(s) < 0x10000
  {
    HexReadBound(s[..3]);
  }

  /** The escapes of one letter, and the character each stands for. */
  function ShortMeaning(e: char): seq<char> {
    if e == '"' || e == '\\' || e == '/' then [e]
    else if e == 'b' then ['\U{0008}']
    else if e == 'f' then ['\U{000C}']
    else if e == 'n' then ['\n']
    else if e == 'r' then ['\r']
    else if e == 't' then ['\t']
    else []
  }

  predicate ValidPiece(p: Piece) {
    match p
    case Raw(c) => c != '"' && c != '\\' && c as int > 0x1F
    case Short(e) => ShortMeaning(e) != []
    case Unit(h) => IsHex4(h) && !IsHighSurrogate(HexRead(h)) && !IsLowSurrogate(HexRead(h))
    case Pair(hi, lo) => IsHex4(hi) && IsHex4(lo) && IsHighSurrogate(HexRead(hi)) && IsLowSurrogate(HexRead(lo))
  }

  function PieceText(p: Piece): string {
    match p
    case Raw(c) => [c]
    case Short(e) => ['\\', e]
    case Unit(h) => "\\u" + h
    case Pair(hi, lo) => "\\u" + hi + "\\u" + lo
  }

  /** The character a valid piece stands for. */
  function PieceChar(p: Piece): char {
    if !ValidPiece(p) then '?' else
    match p
    case Raw(c) => c
    case Short(e) => ShortMeaning(e)[0]
    case Unit(h) => Hex4Bound(h); HexRead(h) as char
    case Pair(hi, lo) => (0x10000 + (HexRead(hi) - 0xD800) * 0x400 + (HexRead(lo) - 0xDC00)) as char
  }

  predicate ValidPieces(ps: seq<Piece>) { forall i :: 0 <= i < |ps| ==> ValidPiece(ps[i]) }

  function PiecesThen(ps: seq<Piece>, rest: string): string {
    if ps == [] then rest else PieceText(ps[0]) + PiecesThen(ps[1..], rest)
  }

  function StringThen(ps: seq<Piece>, rest: string): string {
    "\"" + PiecesThen(ps, "\"" + rest)
  }

  function PiecesValue(ps: seq<Piece>): string {
    if ps == [] then [] else [PieceChar(ps[0])] + PiecesValue(ps[1..])
  }

  // ----- Values -----

  datatype Tree =
    | TNull
    | TBool(b: bool)
    | TNumber(neg: bool, digits: string)
    | TString(pieces: seq<Piece>)
    | TArray(pad: string, items: seq<Item>)      // `pad` fills an array without items
    | TObject(pad: string, fields: seq<Field>)

  datatype Item = Item(before: string, value: Tree, after: string)

  datatype Field = Field(before: string, key: seq<Piece>, gap1: string, gap2: string, value: Tree, after: string)

  predicate IsWs(c: char) { c == ' ' || c == '\t' || c == '\n' || c == '\r' }

  predicate AllWs(s: string) { forall i :: 0 <= i < |s| ==> IsWs(s[i]) }

  /** Well-formed at nesting level `depth`; the range of the integers is `InRange`. */
  predicate Valid(t: Tree, depth: nat) {
    match t
    case TNull | TBool(_) => true
    case TNumber(_, digits) => Shortest(digits)
    case TString(ps) => ValidPieces(ps)
    case TArray(pad, items) =>
      && depth < MAX_PARSE_DEPTH
      && AllWs(pad)
      && forall i :: 0 <= i < |items| ==>
          AllWs(items[i].before) && AllWs(items[i].after) && Valid(items[i].value, depth + 1)
    case TObject(pad, fs) =>
      && depth < MAX_PARSE_DEPTH
      && AllWs(pad)
      && (forall i :: 0 <= i < |fs| ==> ValidField(fs[i], depth + 1))
      && forall i, j :: 0 <= i < j < |fs| ==> PiecesValue(fs[i].key) != PiecesValue(fs[j].key)
  }

  predicate ValidField(f: Field, depth: nat) {
    && AllWs(f.before) && AllWs(f.gap1) && AllWs(f.gap2) && AllWs(f.after)
    && ValidPieces(f.key)
    && Valid(f.value, depth)
  }

  function TextThen(t: Tree, rest: string): string {
    match t
    case TNull => "null" + rest
    case TBool(b) => (if b then "true" else "false") + rest
    case TNumber(neg, digits) => (if neg then "-" else "") + (digits + rest)
    case TString(ps) => StringThen(ps, rest)
    case TArray(pad, items) => "[" + if items == [] then pad + ("]" + rest) else ItemsThen(items, rest)
    case TObject(pad, fs) => "{" + if fs == [] then pad + ("}" + rest) else FieldsThen(fs, rest)
  }

  function ItemsThen(items: seq<Item>, rest: string): string
    requires items != []
  {
    items[0].before + TextThen(items[0].value, items[0].after +
      if |items| == 1 then "]" + rest else "," + ItemsThen(items[1..], rest))
  }

  function FieldsThen(fs: seq<Field>, rest: string): string
    requires fs != []
  {
    fs[0].before + StringThen(fs[0].key, fs[0].gap1 + (":" + (fs[0].gap2 +
      TextThen(fs[0].value, fs[0].after +
        if |fs| == 1 then "}" + rest else "," + FieldsThen(fs[1..], rest)))))
  }

  /** The value a valid tree denotes. */
  function ValueOf(t: Tree): JcsValue {
    match t
    case TNull => Null
    case TBool(b) => Bool(b)
    case TNumber(neg, digits) =>
      var n: int := if AllDigits(digits) then Read(digits) else 0;
      Integer(if neg then -n else n)
    case TString(ps) => String(PiecesValue(ps))
    case TArray(_, items) => Array(ItemsValue(items))
    case TObject(_, fs) => Object(FieldsValue(fs))
  }

  function ItemsValue(items: seq<Item>): (r: seq<JcsValue>)
    ensures |r| == |items|
    ensures forall i :: 0 <= i < |r| ==> r[i] == ValueOf(items[i].value)
  {
    if items == [] then [] else [ValueOf(items[0].value)] + ItemsValue(items[1..])
  }

  function FieldsValue(fs: seq<Field>): (r: seq<Member>)
    ensures |r| == |fs|
    ensures forall i :: 0 <= i < |r| ==> r[i] == Member(PiecesValue(fs[i].key), ValueOf(fs[i].value))
  {
    if fs == [] then []
    else [Member(PiecesValue(fs[0].key), ValueOf(fs[0].value))] + FieldsValue(fs[1..])
  }

  /** `s` is a JSON text for `v`: white space, one value within the JCS-safe domain, white space. */
  ghost predicate Derives(s: string, v: JcsValue) {
    exists before: string, t: Tree, after: string ::
      && AllWs(before) && AllWs(after) && Valid(t, 0)
      && s == before + TextThen(t, after)
      && ValueOf(t) == v
      && Safe(v)
  }
}
