/** The canonical text itself: RFC 8785 sections 3.2.2 and 3.2.3, spelled out. */
module Spelling {
  import opened Decimal
  import opened Jcs
  import opened Grammar
  import opened Printer

  /** How a character is written in a string: the short escapes, lower-case `\\u00xx` for other controls, itself otherwise. */
  function Spell(c: char): string {
    if c == '"' then "\\\""
    else if c == '\\' then "\\\\"
    else if c as int == 0x08 then "\\b"
    else if c as int == 0x09 then "\\t"
    else if c as int == 0x0A then "\\n"
    else if c as int == 0x0C then "\\f"
    else if c as int == 0x0D then "\\r"
    else if c as int < 0x20 then "\\u00" + ["01"[c as int / 16], "0123456789abcdef"[c as int % 16]]
    else [c]
  }

  function SpellAll(s: string): string {
    if s == "" then "" else Spell(s[0]) + SpellAll(s[1..])
  }

  lemma PieceSpelled(c: char)
    ensures PieceText(CanonPiece(c)) == Spell(c)
  {
    var n := c as int;
    if CanonPiece(c).Unit? {
      assert LowerHex(n / 16) == "01"[n / 16];
      assert LowerHex(n % 16) == "0123456789abcdef"[n % 16];
      assert "\\u" + ("00" + [LowerHex(n / 16), LowerHex(n % 16)]) == "\\u00" + [LowerHex(n / 16), LowerHex(n % 16)];
    }
  }

  lemma {:induction false} PiecesSpelled(s: string, rest: string)
    ensures PiecesThen(CanonPieces(s), rest) == SpellAll(s) + rest
  {
    if s == "" {
      assert "" + rest == rest;
    } else {
      PieceSpelled(s[0]);
      PiecesSpelled(s[1..], rest);
      assert CanonPieces(s)[1..] == CanonPieces(s[1..]);
      assert Spell(s[0]) + (SpellAll(s[1..]) + rest) == Spell(s[0]) + SpellAll(s[1..]) + rest;
    }
  }

  /** A string is its characters, spelled one by one between quotes. */
  lemma PrintedString(s: string)
    ensures Print(String(s)) == "\"" + SpellAll(s) + "\""
  {
    PiecesSpelled(s, "\"");
    assert "\"" + "" == "\"";
    assert "\"" + (SpellAll(s) + "\"") == "\"" + SpellAll(s) + "\"";
  }

  /** Literals by name, integers in decimal with a sign only when negative. */
  lemma PrintedScalars(b: bool, i: int)
    ensures Print(Null) == "null" && Print(Bool(b)) == if b then "true" else "false"
    ensures Print(Integer(i)) == if i < 0 then "-" + Show(-i) else Show(i)
  {
    assert "null" + "" == "null" && "true" + "" == "true" && "false" + "" == "false";
    var digits := Show(if i < 0 then -i else i);
    assert "" + (digits + "") == digits && "-" + (digits + "") == "-" + digits;
  }

  /** Texts with a comma between each two. */
  function Commas(texts: seq<string>): string {
    if texts == [] then "" else if |texts| == 1 then texts[0] else texts[0] + "," + Commas(texts[1..])
  }

  lemma {:induction false} JoinedFrom(texts: seq<string>, i: nat, close: string)
    requires i < |texts|
    ensures JoinFrom(texts, i, close) == Comma(i) + (Commas(texts[i..]) + close)
    decreases |texts| - i
  {
    var rest := texts[i..];
    assert rest[0] == texts[i] && rest[1..] == texts[i + 1..];
    if i + 1 < |texts| {
      JoinedFrom(texts, i + 1, close);
      assert texts[i] + ("," + (Commas(rest[1..]) + close)) == texts[i] + "," + Commas(rest[1..]) + close;
    }
  }

  lemma Joined(texts: seq<string>, close: string)
    ensures JoinFrom(texts, 0, close) == Commas(texts) + close
  {
    if texts == [] {
      assert "" + close == close;
    } else {
      JoinedFrom(texts, 0, close);
      assert texts[0..] == texts;
      assert "" + (Commas(texts) + close) == Commas(texts) + close;
    }
  }

  /** An array is its items' texts with commas between them and nothing else. */
  lemma PrintedArray(items: seq<JcsValue>)
    ensures Print(Array(items)) == "[" + Commas(seq(|items|, i requires 0 <= i < |items| => Print(items[i]))) + "]"
  {
    var texts := ArrayJoined(items);
    Joined(texts, "]");
    assert texts == seq(|items|, i requires 0 <= i < |items| => Print(items[i]));
    assert "[" + (Commas(texts) + "]") == "[" + Commas(texts) + "]";
  }

  function MemberSpelled(m: Member): string {
    Print(String(m.key)) + ":" + Print(m.value)
  }

  /** An object is its members in order, each a name, a colon and a text, with commas between them and nothing else. */
  lemma PrintedObject(members: seq<Member>)
    ensures var sorted := SortMembers(members);
            Print(Object(members)) == "{" + Commas(seq(|sorted|, i requires 0 <= i < |sorted| => MemberSpelled(sorted[i]))) + "}"
  {
    var sorted := SortMembers(members);
    var texts := ObjectJoined(members);
    Joined(texts, "}");
    forall i | 0 <= i < |sorted| ensures texts[i] == MemberSpelled(sorted[i]) {
      MemberIsSpelled(sorted[i]);
    }
    assert texts == seq(|sorted|, i requires 0 <= i < |sorted| => MemberSpelled(sorted[i]));
    assert "{" + (Commas(texts) + "}") == "{" + Commas(texts) + "}";
  }

  lemma MemberIsSpelled(m: Member)
    ensures PrintMember(m) == MemberSpelled(m)
  {
    var (k, v) := (Print(String(m.key)), Print(m.value));
    assert k == StringThen(CanonPieces(m.key), "");
    assert k + (":" + v) == k + ":" + v;
  }
}
