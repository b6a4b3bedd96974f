/** RFC 8785 output: the canonical tree of a value, and the writer that emits its text. */
module Printer {
  import opened Outcome
  import opened Decimal
  import opened Utf16
  import opened Jcs
  import opened Grammar
  import opened MemberOrder

  // ----- The canonical tree -----

  function LowerHex(d: nat): char
    requires d < 16
  {
    if d < 10 then '0' + d as char else 'a' + (d - 10) as char
  }

  /** Escape only what must be escaped, in the short form where there is one. */
  function CanonPiece(c: char): Piece {
    if c == '"' || c == '\\' then Short(c)
    else if c == '\U{0008}' then Short('b')
    else if c == '\t' then Short('t')
    else if c == '\n' then Short('n')
    else if c == '\U{000C}' then Short('f')
    else if c == '\r' then Short('r')
    else if c as int <= 0x1F then Unit("00" + [LowerHex(c as int / 16), LowerHex(c as int % 16)])
    else Raw(c)
  }

  function CanonPieces(s: string): (ps: seq<Piece>)
    ensures |ps| == |s|
  {
    if s == [] then [] else [CanonPiece(s[0])] + CanonPieces(s[1..])
  }

  /** No white space, shortest integers, members as listed. */
  function CanonTree(v: JcsValue): Tree {
    match v
    case Null => TNull
    case Bool(b) => TBool(b)
    case Integer(i) => if i < 0 then TNumber(true, Show(-i)) else TNumber(false, Show(i))
    case String(s) => TString(CanonPieces(s))
    case Array(items) => TArray("", CanonItems(items))
    case Object(ms) => TObject("", CanonFields(ms))
  }

  function CanonItems(items: seq<JcsValue>): (r: seq<Item>)
    ensures |r| == |items|
    ensures forall i :: 0 <= i < |r| ==> r[i] == Item("", CanonTree(items[i]), "")
  {
    if items == [] then [] else [Item("", CanonTree(items[0]), "")] + CanonItems(items[1..])
  }

  function CanonField(m: Member): Field {
    Field("", CanonPieces(m.key), "", "", CanonTree(m.value), "")
  }

  function CanonFields(ms: seq<Member>): (r: seq<Field>)
    ensures |r| == |ms|
    ensures forall i :: 0 <= i < |r| ==> r[i] == CanonField(ms[i])
  {
    if ms == [] then [] else [CanonField(ms[0])] + CanonFields(ms[1..])
  }

  /** The canonical text: members in UTF-16 order at every level. */
  function Print(v: JcsValue): string {
    TextThen(CanonTree(Normalize(v)), "")
  }

  // ----- The canonical tree denotes its value -----

  lemma CanonPieceValid(c: char)
    ensures ValidPiece(CanonPiece(c)) && PieceChar(CanonPiece(c)) == c
  {
    if CanonPiece(c).Unit? {
      var h := CanonPiece(c).h;
      var n := c as int;
      HexReadTwo(n / 16, n % 16);
    }
  }

  lemma HexReadTwo(a: nat, b: nat)
    requires a < 2 && b < 16
    ensures var h := "00" + [LowerHex(a), LowerHex(b)]; IsHex4(h) && HexRead(h) == 16 * a + b
  {
    var h := "00" + [LowerHex(a), LowerHex(b)];
    assert h[..3] == "00" + [LowerHex(a)] && h[..3][..2] == "00";
    assert HexRead("00") == 0;
    assert HexDigit(LowerHex(a)) == a && HexDigit(LowerHex(b)) == b;
  }

  lemma {:induction false} CanonPiecesValid(s: string)
    ensures ValidPieces(CanonPieces(s)) && PiecesValue(CanonPieces(s)) == s
  {
    if s != [] {
      CanonPieceValid(s[0]);
      CanonPiecesValid(s[1..]);
    }
  }

  lemma {:induction false} CanonValue(v: JcsValue)
    ensures ValueOf(CanonTree(v)) == v
  {
    match v
    case Integer(i) => ReadShow(if i < 0 then -i else i);
    case String(s) => CanonPiecesValid(s);
    case Array(items) =>
      forall i | 0 <= i < |items| ensures ItemsValue(CanonItems(items))[i] == items[i] {
        CanonValue(items[i]);
      }
      assert ItemsValue(CanonItems(items)) == items;
    case Object(ms) =>
      forall i | 0 <= i < |ms| ensures FieldsValue(CanonFields(ms))[i] == ms[i] {
        CanonPiecesValid(ms[i].key);
        CanonValue(ms[i].value);
      }
      assert FieldsValue(CanonFields(ms)) == ms;
    case _ =>
  }

  lemma {:induction false} CanonValid(v: JcsValue, depth: nat)
    requires Printable(v, depth)
    ensures Valid(CanonTree(v), depth)
  {
    match v
    case Integer(i) => ReadShow(if i < 0 then -i else i);
    case String(s) => CanonPiecesValid(s);
    case Array(items) =>
      forall i | 0 <= i < |items| ensures Valid(CanonItems(items)[i].value, depth + 1) {
        CanonValid(items[i], depth + 1);
      }
    case Object(ms) =>
      var fs := CanonFields(ms);
      forall i | 0 <= i < |ms| ensures ValidField(fs[i], depth + 1) && PiecesValue(fs[i].key) == ms[i].key {
        CanonPiecesValid(ms[i].key);
        CanonValid(ms[i].value, depth + 1);
      }
    case _ =>
  }

  // ----- Text is built by appending -----

  lemma {:induction false} PiecesAppend(ps: seq<Piece>, x: string, y: string)
    ensures PiecesThen(ps, x + y) == PiecesThen(ps, x) + y
  {
    if ps != [] {
      PiecesAppend(ps[1..], x, y);
      assert PieceText(ps[0]) + (PiecesThen(ps[1..], x) + y) == PieceText(ps[0]) + PiecesThen(ps[1..], x) + y;
    }
  }

  lemma StringAppend(ps: seq<Piece>, x: string, y: string)
    ensures StringThen(ps, x + y) == StringThen(ps, x) + y
  {
    assert "\"" + (x + y) == "\"" + x + y;
    PiecesAppend(ps, "\"" + x, y);
  }

  lemma LeafAppend(t: Tree, x: string, y: string)
    requires !t.TArray? && !t.TObject?
    ensures TextThen(t, x + y) == TextThen(t, x) + y
  {
    match t
    case TNull => assert "null" + (x + y) == "null" + x + y;
    case TBool(b) =>
      var w := if b then "true" else "false";
      assert w + (x + y) == w + x + y;
    case TNumber(neg, digits) =>
      var w := if neg then "-" else "";
      assert w + (digits + (x + y)) == w + (digits + x) + y;
    case TString(ps) => StringAppend(ps, x, y);
  }

  lemma EmptyAppend(t: Tree, x: string, y: string)
    requires (t.TArray? && t.items == []) || (t.TObject? && t.fields == [])
    ensures TextThen(t, x + y) == TextThen(t, x) + y
  {
    if t.TArray? {
      assert "[" + (t.pad + ("]" + (x + y))) == "[" + (t.pad + ("]" + x)) + y;
    } else {
      assert "{" + (t.pad + ("}" + (x + y))) == "{" + (t.pad + ("}" + x)) + y;
    }
  }

  /** What follows a text does not change it. */
  lemma {:induction false} TextAppend(t: Tree, x: string, y: string)
    ensures TextThen(t, x + y) == TextThen(t, x) + y
    decreases t, 1
  {
    match t
    case TArray(pad, items) =>
      if items == [] {
        EmptyAppend(t, x, y);
      } else {
        ItemsAppend(items, x, y);
        assert "[" + (ItemsThen(items, x) + y) == "[" + ItemsThen(items, x) + y;
      }
    case TObject(pad, fs) =>
      if fs == [] {
        EmptyAppend(t, x, y);
      } else {
        FieldsAppend(fs, x, y);
        assert "{" + (FieldsThen(fs, x) + y) == "{" + FieldsThen(fs, x) + y;
      }
    case _ => LeafAppend(t, x, y);
  }

  lemma {:induction false} ItemsAppend(items: seq<Item>, x: string, y: string)
    requires items != []
    ensures ItemsThen(items, x + y) == ItemsThen(items, x) + y
    decreases items, 0
  {
    var it := items[0];
    var tail := if |items| == 1 then "]" + x else "," + ItemsThen(items[1..], x);
    if |items| > 1 {
      ItemsAppend(items[1..], x, y);
      assert "," + (ItemsThen(items[1..], x) + y) == tail + y;
    } else {
      assert "]" + (x + y) == tail + y;
    }
    assert it.after + (tail + y) == it.after + tail + y;
    TextAppend(it.value, it.after + tail, y);
    assert it.before + (TextThen(it.value, it.after + tail) + y) == it.before + TextThen(it.value, it.after + tail) + y;
  }

  lemma {:induction false} FieldAppend(f: Field, tail: string, y: string)
    ensures f.before + StringThen(f.key, f.gap1 + (":" + (f.gap2 + TextThen(f.value, f.after + (tail + y))))) ==
            f.before + StringThen(f.key, f.gap1 + (":" + (f.gap2 + TextThen(f.value, f.after + tail)))) + y
    decreases f, 0
  {
    assert f.after + (tail + y) == f.after + tail + y;
    TextAppend(f.value, f.after + tail, y);
    var text := TextThen(f.value, f.after + tail);
    var u := f.gap1 + (":" + (f.gap2 + text));
    assert f.gap1 + (":" + (f.gap2 + (text + y))) == u + y;
    StringAppend(f.key, u, y);
    assert f.before + (StringThen(f.key, u) + y) == f.before + StringThen(f.key, u) + y;
  }

  lemma {:induction false} FieldsAppend(fs: seq<Field>, x: string, y: string)
    requires fs != []
    ensures FieldsThen(fs, x + y) == FieldsThen(fs, x) + y
    decreases fs, 0
  {
    var tail := if |fs| == 1 then "}" + x else "," + FieldsThen(fs[1..], x);
    if |fs| > 1 {
      FieldsAppend(fs[1..], x, y);
      assert "," + (FieldsThen(fs[1..], x) + y) == tail + y;
    } else {
      assert "}" + (x + y) == tail + y;
    }
    FieldAppend(fs[0], tail, y);
  }

  // ----- What a loop over elements still has to write -----

  /** The text of a string literal from character `i` on. */
  ghost function CharsFrom(s: string, i: nat): string
    requires i <= |s|
  {
    PiecesThen(CanonPieces(s[i..]), "\"")
  }

  lemma CharsStart(before: string, s: string)
    ensures before + "\"" + CharsFrom(s, 0) == before + StringThen(CanonPieces(s), "")
  {
    assert s[0..] == s && "\"" + "" == "\"";
    assert StringThen(CanonPieces(s), "") == "\"" + CharsFrom(s, 0);
  }

  lemma CharsNext(before: string, s: string, i: nat)
    requires i < |s|
    ensures before + PieceText(CanonPiece(s[i])) + CharsFrom(s, i + 1) == before + CharsFrom(s, i)
  {
    assert s[i..][1..] == s[i+1..];
    assert CanonPieces(s[i..])[1..] == CanonPieces(s[i+1..]);
    assert CharsFrom(s, i) == PieceText(CanonPiece(s[i])) + CharsFrom(s, i + 1);
  }

  lemma Assoc(a: string, b: string, c: string, d: string)
    ensures a + b + c + d == a + (b + (c + d))
  {
  }

  function Comma(i: nat): string { if i > 0 then "," else "" }

  /** Element texts from number `i` on, each but the first behind a comma, then the closing bracket. */
  ghost function JoinFrom(texts: seq<string>, i: nat, close: string): string
    requires i <= |texts|
    decreases |texts| - i
  {
    if i == |texts| then close else Comma(i) + (texts[i] + JoinFrom(texts, i + 1, close))
  }

  /** What is in the buffer after `i` elements. */
  ghost function Emitted(start: string, texts: seq<string>, i: nat): string
    requires i <= |texts|
  {
    if i == 0 then start else Emitted(start, texts, i - 1) + Comma(i - 1) + texts[i-1]
  }

  lemma {:induction false} EmittedThenRest(start: string, texts: seq<string>, i: nat, close: string)
    requires i <= |texts|
    ensures Emitted(start, texts, i) + JoinFrom(texts, i, close) == start + JoinFrom(texts, 0, close)
  {
    if i > 0 {
      EmittedThenRest(start, texts, i - 1, close);
      Assoc(Emitted(start, texts, i - 1), Comma(i - 1), texts[i-1], JoinFrom(texts, i, close));
    }
  }

  lemma AllEmitted(start: string, texts: seq<string>, open: string, close: string)
    ensures Emitted(start + open, texts, |texts|) + close == start + (open + JoinFrom(texts, 0, close))
  {
    EmittedThenRest(start + open, texts, |texts|, close);
    assert start + open + JoinFrom(texts, 0, close) == start + (open + JoinFrom(texts, 0, close));
  }

  ghost function ItemTexts(items: seq<JcsValue>): (r: seq<string>)
    ensures |r| == |items|
    ensures forall i :: 0 <= i < |r| ==> r[i] == TextThen(CanonTree(items[i]), "")
  {
    seq(|items|, i requires 0 <= i < |items| => TextThen(CanonTree(items[i]), ""))
  }

  lemma {:induction false} ItemsJoined(items: seq<JcsValue>, i: nat)
    requires i < |items|
    ensures JoinFrom(ItemTexts(items), i, "]") == Comma(i) + ItemsThen(CanonItems(items[i..]), "")
    decreases |items| - i
  {
    var cs := CanonItems(items[i..]);
    assert items[i..][1..] == items[i+1..];
    assert cs[1..] == CanonItems(items[i+1..]);
    var tail := if |cs| == 1 then "]" + "" else "," + ItemsThen(cs[1..], "");
    if i + 1 < |items| {
      ItemsJoined(items, i + 1);
    }
    assert tail == JoinFrom(ItemTexts(items), i + 1, "]");
    assert "" + tail == tail;
    TextAppend(cs[0].value, "", tail);
    assert "" + TextThen(cs[0].value, tail) == TextThen(cs[0].value, tail);
  }

  /** The canonical text of an array, from the canonical texts of its items. */
  lemma ArrayJoined(items: seq<JcsValue>) returns (texts: seq<string>)
    ensures |texts| == |items| && forall i :: 0 <= i < |texts| ==> texts[i] == Print(items[i])
    ensures Print(Array(items)) == "[" + JoinFrom(texts, 0, "]")
  {
    var xs := NormalizeItems(items);
    texts := ItemTexts(xs);
    if xs == [] {
      assert "" + ("]" + "") == "]";
    } else {
      assert xs[0..] == xs;
      ItemsJoined(xs, 0);
      assert Comma(0) + ItemsThen(CanonItems(xs), "") == ItemsThen(CanonItems(xs), "");
    }
  }

  ghost function MemberText(m: Member): string {
    StringThen(CanonPieces(m.key), "") + (":" + TextThen(CanonTree(m.value), ""))
  }

  ghost function MemberTexts(ms: seq<Member>): (r: seq<string>)
    ensures |r| == |ms|
    ensures forall i :: 0 <= i < |r| ==> r[i] == MemberText(ms[i])
  {
    seq(|ms|, i requires 0 <= i < |ms| => MemberText(ms[i]))
  }

  lemma ColonAppend(v: JcsValue, tail: string)
    ensures "" + (":" + ("" + TextThen(CanonTree(v), "" + tail))) == ":" + TextThen(CanonTree(v), "") + tail
  {
    assert "" + tail == tail;
    TextAppend(CanonTree(v), "", tail);
  }

  lemma MemberAppend(m: Member, tail: string)
    ensures var f := CanonField(m);
            f.before + StringThen(f.key, f.gap1 + (":" + (f.gap2 + TextThen(f.value, f.after + tail)))) ==
            MemberText(m) + tail
  {
    ColonAppend(m.value, tail);
    var text := ":" + TextThen(CanonTree(m.value), "");
    assert "" + (text + tail) == text + tail;
    StringAppend(CanonPieces(m.key), "", text + tail);
    assert StringThen(CanonPieces(m.key), "") + (text + tail) == MemberText(m) + tail;
  }

  lemma {:induction false} FieldsJoined(ms: seq<Member>, i: nat)
    requires i < |ms|
    ensures JoinFrom(MemberTexts(ms), i, "}") == Comma(i) + FieldsThen(CanonFields(ms[i..]), "")
    decreases |ms| - i
  {
    var cs := CanonFields(ms[i..]);
    assert ms[i..][1..] == ms[i+1..];
    assert cs[1..] == CanonFields(ms[i+1..]);
    var tail := if |cs| == 1 then "}" + "" else "," + FieldsThen(cs[1..], "");
    if i + 1 < |ms| {
      FieldsJoined(ms, i + 1);
    }
    assert tail == JoinFrom(MemberTexts(ms), i + 1, "}");
    MemberAppend(ms[i], tail);
  }

  /** The canonical text of an object, from the texts of its sorted members. */
  lemma ObjectJoined(members: seq<Member>) returns (texts: seq<string>)
    ensures var sorted := SortMembers(members);
            && |texts| == |sorted| && (forall i :: 0 <= i < |texts| ==> texts[i] == PrintMember(sorted[i]))
            && Print(Object(members)) == "{" + JoinFrom(texts, 0, "}")
  {
    SortNormalize(members);
    var ms := NormalizeMembers(SortMembers(members));
    texts := MemberTexts(ms);
    if ms == [] {
      assert "" + ("}" + "") == "}";
    } else {
      assert ms[0..] == ms;
      FieldsJoined(ms, 0);
      assert Comma(0) + FieldsThen(CanonFields(ms), "") == FieldsThen(CanonFields(ms), "");
    }
  }

  ghost function PrintMember(m: Member): string {
    MemberText(Member(m.key, Normalize(m.value)))
  }

  // ----- The writer -----

  class Writer {
    var out: string

    constructor ()
      ensures out == ""
    {
      out := "";
    }

    method WriteString(s: string)
      modifies this
      ensures out == old(out) + StringThen(CanonPieces(s), "")
    {
      ghost var full := out + StringThen(CanonPieces(s), "");
      CharsStart(out, s);
      out := out + "\"";
      for i := 0 to |s|
        invariant out + CharsFrom(s, i) == full
      {
        CharsNext(out, s, i);
        out := out + PieceText(CanonPiece(s[i]));
      }
      out := out + "\"";
    }

    /** Append the canonical text of `v`, or fail on a duplicate name or too deep a container. */
    method WriteValue(v: JcsValue, depth: nat) returns (ok: bool)
      modifies this
      ensures ok <==> Printable(v, depth)
      ensures ok ==> out == old(out) + Print(v)
      decreases if depth < MAX_PARSE_DEPTH then MAX_PARSE_DEPTH - depth else 0, 3
    {
      match v
      case Array(items) =>
        if depth >= MAX_PARSE_DEPTH {
          return false;
        }
        ghost var texts := ArrayJoined(items);
        ghost var good := seq(|items|, i requires 0 <= i < |items| => Printable(items[i], depth + 1));
        ok := WriteItems(items, texts, good, depth);
      case Object(members) =>
        if depth >= MAX_PARSE_DEPTH {
          return false;
        }
        ok := WriteObject(members, depth);
      case String(s) =>
        WriteString(s);
        ok := true;
      case _ =>
        WriteScalar(v);
        ok := true;
    }

    method WriteScalar(v: JcsValue)
      requires v.Null? || v.Bool? || v.Integer?
      modifies this
      ensures out == old(out) + Print(v)
    {
      match v
      case Null => out := out + "null";
      case Bool(b) => out := out + if b then "true" else "false";
      case Integer(i) => out := out + if i < 0 then "-" + Show(-i) else Show(i);
    }

    method WriteObject(members: seq<Member>, depth: nat) returns (ok: bool)
      requires depth < MAX_PARSE_DEPTH
      modifies this
      ensures ok <==> Printable(Object(members), depth)
      ensures ok ==> out == old(out) + Print(Object(members))
      decreases MAX_PARSE_DEPTH - depth, 2
    {
      var sorted := SortByName(members);
      DuplicateScan(members);
      if EqualNeighbours(sorted) {
        return false;
      }
      ok := WriteSorted(members, sorted, depth);
    }

    method WriteSorted(ghost members: seq<Member>, sorted: seq<Member>, depth: nat) returns (ok: bool)
      requires depth < MAX_PARSE_DEPTH && sorted == SortMembers(members) && UniqueKeys(members)
      modifies this
      ensures ok <==> Printable(Object(members), depth)
      ensures ok ==> out == old(out) + Print(Object(members))
      decreases MAX_PARSE_DEPTH - depth, 1
    {
      ghost var texts := ObjectJoined(members);
      ghost var good := seq(|sorted|, i requires 0 <= i < |sorted| => Printable(sorted[i].value, depth + 1));
      ok := WriteMembers(sorted, texts, good, depth);
      SortElements(members);
      PrintableMembers(sorted, members, depth + 1);
    }

    method WriteItem(v: JcsValue, ghost text: string, ghost good: bool, i: nat, depth: nat) returns (ok: bool)
      requires text == Print(v) && good == Printable(v, depth)
      modifies this
      ensures ok == good
      ensures ok ==> out == old(out) + Comma(i) + text
      decreases if depth < MAX_PARSE_DEPTH then MAX_PARSE_DEPTH - depth else 0, 4
    {
      out := out + Comma(i);
      ok := WriteValue(v, depth);
    }

    method WriteItems(items: seq<JcsValue>, ghost texts: seq<string>, ghost good: seq<bool>, depth: nat) returns (ok: bool)
      requires depth < MAX_PARSE_DEPTH && |texts| == |good| == |items|
      requires forall i {:trigger items[i]} :: 0 <= i < |texts| ==> texts[i] == Print(items[i])
      requires forall i {:trigger items[i]} :: 0 <= i < |good| ==> good[i] == Printable(items[i], depth + 1)
      modifies this
      ensures ok <==> forall k :: 0 <= k < |good| ==> good[k]
      ensures ok ==> out == old(out) + ("[" + JoinFrom(texts, 0, "]"))
      decreases MAX_PARSE_DEPTH - depth, 0
    {
      out := out + "[";
      ghost var start := out;
      for i := 0 to |items|
        invariant forall k :: 0 <= k < i ==> good[k]
        invariant out == Emitted(start, texts, i)
      {
        var written := WriteItem(items[i], texts[i], good[i], i, depth + 1);
        if !written {
          return false;
        }
      }
      AllEmitted(old(out), texts, "[", "]");
      out := out + "]";
      ok := true;
    }

    method WriteMember(m: Member, ghost text: string, ghost good: bool, i: nat, depth: nat) returns (ok: bool)
      requires text == PrintMember(m) && good == Printable(m.value, depth)
      modifies this
      ensures ok == good
      ensures ok ==> out == old(out) + Comma(i) + text
      decreases if depth < MAX_PARSE_DEPTH then MAX_PARSE_DEPTH - depth else 0, 4
    {
      out := out + Comma(i);
      ghost var start := out;
      WriteString(m.key);
      out := out + ":";
      ok := WriteValue(m.value, depth);
      if ok {
        MemberWritten(start, StringThen(CanonPieces(m.key), ""), Print(m.value));
      }
    }

    method WriteMembers(sorted: seq<Member>, ghost texts: seq<string>, ghost good: seq<bool>, depth: nat) returns (ok: bool)
      requires depth < MAX_PARSE_DEPTH && |texts| == |good| == |sorted|
      requires forall i {:trigger sorted[i]} :: 0 <= i < |texts| ==> texts[i] == PrintMember(sorted[i])
      requires forall i {:trigger sorted[i]} :: 0 <= i < |good| ==> good[i] == Printable(sorted[i].value, depth + 1)
      modifies this
      ensures ok <==> forall k :: 0 <= k < |good| ==> good[k]
      ensures ok ==> out == old(out) + ("{" + JoinFrom(texts, 0, "}"))
      decreases MAX_PARSE_DEPTH - depth, 0
    {
      out := out + "{";
      ghost var start := out;
      for i := 0 to |sorted|
        invariant forall k :: 0 <= k < i ==> good[k]
        invariant out == Emitted(start, texts, i)
      {
        var written := WriteMember(sorted[i], texts[i], good[i], i, depth + 1);
        if !written {
          return false;
        }
      }
      AllEmitted(old(out), texts, "{", "}");
      out := out + "}";
      ok := true;
    }
  }

  lemma MemberWritten(start: string, key: string, value: string)
    ensures start + key + ":" + value == start + (key + (":" + value))
  {
  }

  predicate EqualNeighbours(ms: seq<Member>) {
    exists i :: 0 <= i < |ms| - 1 && ms[i].key == ms[i+1].key
  }

  /** Equal names end up next to each other, so comparing neighbours finds every duplicate. */
  lemma DuplicateScan(members: seq<Member>)
    ensures UniqueKeys(members) <==> !EqualNeighbours(SortMembers(members))
  {
    var sorted := SortMembers(members);
    SortIsSorted(members);
    SortStrict(members);
    if UniqueKeys(members) {
      StrictIsUnique(sorted);
    } else if !EqualNeighbours(sorted) {
      NeighboursSuffice(sorted);
    }
  }

  lemma PrintableMembers(sorted: seq<Member>, members: seq<Member>, depth: nat)
    requires SameElements(sorted, members)
    ensures (forall k :: 0 <= k < |sorted| ==> Printable(sorted[k].value, depth)) <==>
            (forall k :: 0 <= k < |members| ==> Printable(members[k].value, depth))
  {
    forall k | 0 <= k < |sorted| ensures sorted[k] in members {}
    forall k | 0 <= k < |members| ensures members[k] in sorted {}
  }
}
