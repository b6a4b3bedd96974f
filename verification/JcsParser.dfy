/** The character-level parser: a cursor and a nesting depth over a fixed text. */
module JcsParser {
  import opened Outcome
  import opened Decimal
  import opened Jcs
  import opened Grammar
  import Spec = Recognizer

  class Parser {
    const chars: string
    var pos: nat
    var depth: nat

    ghost predicate Valid()
      reads this
    {
      pos <= |chars|
    }

    /** The text still to be read. */
    ghost function Rest(): string
      requires Valid()
      reads this
    {
      chars[pos..]
    }

    /** The outcome `r` and the text left now are what `p` says. */
    ghost predicate Agrees<T>(r: Result<T>, p: Spec.Parsed<T>)
      requires Valid()
      reads this
    {
      match p
      case Fail => r == Err(CanonicalizationFailed)
      case Done(v, rest) => r == Ok(v) && Rest() == rest
    }

    constructor (text: string)
      ensures Valid() && chars == text && Rest() == text && depth == 0
    {
      chars := text;
      pos := 0;
      depth := 0;
    }

    predicate AtEnd()
      reads this
    {
      pos >= |chars|
    }

    function Peek(): Option<char>
      reads this
    {
      if pos < |chars| then Some(chars[pos]) else None
    }

    method Bump() returns (c: Option<char>)
      requires Valid()
      modifies this`pos
      ensures Valid()
      ensures old(Rest()) == [] ==> c == None && Rest() == []
      ensures old(Rest()) != [] ==> c == Some(old(Rest())[0]) && Rest() == old(Rest())[1..]
    {
      c := Peek();
      if c.Some? {
        pos := pos + 1;
      }
    }

    method SkipWs()
      requires Valid()
      modifies this`pos
      ensures Valid() && Rest() == Spec.SkipWs(old(Rest()))
    {
      while pos < |chars| && IsWs(chars[pos])
        invariant Valid() && Spec.SkipWs(Rest()) == Spec.SkipWs(old(Rest()))
      {
        assert Rest()[1..] == chars[pos+1..];
        pos := pos + 1;
      }
    }

    method Expect(expected: char) returns (r: Result<()>)
      requires Valid()
      modifies this`pos
      ensures Valid()
      ensures var u := old(Rest());
              Agrees(r, if u != [] && u[0] == expected then Spec.Done((), u[1..]) else Spec.Fail)
    {
      var c := Bump();
      r := if c == Some(expected) then Ok(()) else Err(CanonicalizationFailed);
    }

    method ParseLiteral(literal: string, v: JcsValue) returns (r: Result<JcsValue>)
      requires Valid()
      modifies this`pos
      ensures Valid()
      ensures Agrees(r, Spec.ParseLiteral(old(Rest()), literal, v))
    {
      ghost var s := Rest();
      for i := 0 to |literal|
        invariant Valid() && i <= |s| && s[..i] == literal[..i] && Rest() == s[i..]
      {
        var e := Expect(literal[i]);
        if e.Err? {
          assert i == |s| || s[i] != literal[i];
          return Err(CanonicalizationFailed);
        }
      }
      assert s[..|literal|] == literal;
      r := Ok(v);
    }

    // ----- Strings -----

    method ReadHex4() returns (r: Result<nat>)
      requires Valid()
      modifies this`pos
      ensures Valid()
      ensures Agrees(r, Spec.ReadHex4(old(Rest())))
    {
      ghost var s := Rest();
      var value := 0;
      for i := 0 to 4
        invariant Valid() && i <= |s| && Rest() == s[i..]
        invariant AllHex(s[..i]) && value == HexRead(s[..i])
      {
        var c := Bump();
        if c == None || !IsHex(c.value) {
          assert |s| >= 4 ==> s[..4][i] == s[i];
          return Err(CanonicalizationFailed);
        }
        assert s[..i+1][..i] == s[..i];
        value := value * 16 + HexDigit(c.value);
      }
      r := Ok(value);
    }

    method ParseUnicodeEscape() returns (r: Result<char>)
      requires Valid()
      modifies this`pos
      ensures Valid()
      ensures Agrees(r, Spec.ParseUnicodeEscape(old(Rest())))
    {
      ghost var s := Rest();
      var first :- ReadHex4();
      Hex4Bound(s[..4]);
      if IsHighSurrogate(first) {
        ghost var u := Rest();
        var c := Bump();
        if c != Some('\\') {
          return Err(CanonicalizationFailed);
        }
        c := Bump();
        if c != Some('u') {
          return Err(CanonicalizationFailed);
        }
        assert Rest() == u[2..];
        var second :- ReadHex4();
        if !IsLowSurrogate(second) {
          return Err(CanonicalizationFailed);
        }
        r := Ok((0x10000 + (first - 0xD800) * 0x400 + (second - 0xDC00)) as char);
      } else if IsLowSurrogate(first) {
        r := Err(CanonicalizationFailed);
      } else {
        r := Ok(first as char);
      }
    }

    /** Where the loop stands: `out` is read and the rest of the body is still to come. */
    ghost predicate BodyFrom(s: string, out: string)
      requires Valid()
      reads this
    {
      Spec.ParseChars(s) == Spec.Prepend(out, Spec.ParseChars(Rest()))
    }

    method ParsePiece() returns (r: Result<char>)
      requires Valid() && Rest() != []
      modifies this`pos
      ensures Valid()
      ensures Agrees(r, Spec.ParsePiece(old(Rest())))
    {
      ghost var s := Rest();
      var c := Bump();
      if c.value == '\\' {
        var esc := Bump();
        if esc == None {
          return Err(CanonicalizationFailed);
        }
        assert Rest() == s[2..];
        if esc.value == 'u' {
          r := ParseUnicodeEscape();
        } else {
          var meaning := ShortMeaning(esc.value);
          r := if meaning == [] then Err(CanonicalizationFailed) else Ok(meaning[0]);
        }
      } else {
        r := if c.value as int <= 0x1F then Err(CanonicalizationFailed) else Ok(c.value);
      }
    }

    method ParseString() returns (r: Result<string>)
      requires Valid()
      modifies this`pos
      ensures Valid()
      ensures Agrees(r, Spec.ParseString(old(Rest())))
    {
      var open :- Expect('"');
      ghost var s := Rest();
      var out := [];
      Spec.PrependNone(Spec.ParseChars(s));
      while Peek() != Some('"')
        invariant Valid() && BodyFrom(s, out)
        decreases |chars| - pos
      {
        if AtEnd() {
          return Err(CanonicalizationFailed);
        }
        ghost var before := Rest();
        var c :- ParsePiece();
        assert |Rest()| < |before|;
        Spec.PrependOneMore(out, c, Spec.ParseChars(Rest()));
        out := out + [c];
      }
      var close := Bump();
      assert out + [] == out;
      r := Ok(out);
    }

    // ----- Numbers -----

    method SkipDigits()
      requires Valid()
      modifies this`pos
      ensures Valid() && pos == old(pos) + Spec.DigitRun(old(Rest()))
    {
      while pos < |chars| && IsDigit(chars[pos])
        invariant Valid() && old(pos) <= pos
        invariant pos - old(pos) + Spec.DigitRun(Rest()) == Spec.DigitRun(old(Rest()))
      {
        assert Rest()[1..] == chars[pos+1..];
        pos := pos + 1;
      }
    }

    /** Move behind the integer part and return where it started, or fail. */
    method IntegerPart() returns (start: nat, ok: bool)
      requires Valid()
      modifies this`pos
      ensures Valid() && start == old(pos) <= pos
      ensures ok <==> old(Rest()) != [] && IsDigit(old(Rest())[0])
      ensures ok ==> pos == start + if old(Rest())[0] == '0' then 1 else Spec.DigitRun(old(Rest()))
    {
      start := pos;
      ok := !AtEnd() && IsDigit(chars[pos]);
      if ok {
        if chars[pos] == '0' {
          pos := pos + 1;
        } else {
          SkipDigits();
        }
      }
    }

    method ParseNumber() returns (r: Result<JcsValue>)
      requires Valid() && Rest() != []
      modifies this`pos
      ensures Valid()
      ensures Agrees(r, Spec.ParseNumber(old(Rest())))
    {
      var neg := Peek() == Some('-');
      if neg {
        pos := pos + 1;
      }
      r := ParseUnsigned(neg);
    }

    method ParseUnsigned(neg: bool) returns (r: Result<JcsValue>)
      requires Valid()
      modifies this`pos
      ensures Valid()
      ensures Agrees(r, Spec.ParseUnsigned(old(Rest()), neg))
    {
      ghost var u := Rest();
      var start, ok := IntegerPart();
      if !ok {
        return Err(CanonicalizationFailed);
      }
      ghost var k := pos - start;
      var token := chars[start..pos];
      assert token == u[..k] && Rest() == u[k..];
      var next := Peek();
      if next == Some('.') || next == Some('e') || next == Some('E') {
        return Err(CanonicalizationFailed);
      }
      var parsed := Spec.ParseI64(neg, token);
      if parsed == None || !IsSafeInteger(parsed.value) {
        return Err(CanonicalizationFailed);
      }
      r := Ok(Integer(parsed.value));
    }

    // ----- Values -----

    method ParseValue() returns (r: Result<JcsValue>)
      requires Valid()
      modifies this
      ensures Valid() && depth == old(depth)
      ensures Agrees(r, Spec.ParseValue(old(Rest()), depth))
      decreases |chars| - pos, 3
    {
      var c := Peek();
      if c == Some('{') || c == Some('[') {
        if depth >= MAX_PARSE_DEPTH {
          return Err(CanonicalizationFailed);
        }
        depth := depth + 1;
        if c == Some('{') {
          r := ParseObject();
        } else {
          r := ParseArray();
        }
        depth := depth - 1;
      } else if c == Some('"') {
        var s :- ParseString();
        r := Ok(String(s));
      } else if c == Some('t') {
        r := ParseLiteral("true", Bool(true));
      } else if c == Some('f') {
        r := ParseLiteral("false", Bool(false));
      } else if c == Some('n') {
        r := ParseLiteral("null", Null);
      } else if c.Some? && (c.value == '-' || IsDigit(c.value)) {
        r := ParseNumber();
      } else {
        r := Err(CanonicalizationFailed);
      }
    }

    /** White space, then a comma (more to come) or the closing bracket. */
    method Separator(close: char) returns (more: Result<bool>)
      requires Valid() && close != ','
      modifies this`pos
      ensures Valid()
      ensures var u := Spec.SkipWs(old(Rest()));
              Agrees(more, if u != [] && (u[0] == ',' || u[0] == close) then Spec.Done(u[0] == ',', u[1..]) else Spec.Fail)
    {
      SkipWs();
      var c := Bump();
      more := if c == Some(',') then Ok(true)
              else if c == Some(close) then Ok(false)
              else Err(CanonicalizationFailed);
    }

    /** Where the loop over array items stands. */
    ghost predicate ItemsFrom(s: string, items: seq<JcsValue>)
      requires Valid()
      reads this
    {
      Spec.ParseItems(s, depth) == Spec.Prepend(items, Spec.ParseItems(Rest(), depth))
    }

    method ParseArray() returns (r: Result<JcsValue>)
      requires Valid() && Rest() != [] && Rest()[0] == '['
      modifies this
      ensures Valid() && depth == old(depth)
      ensures Agrees(r, Spec.ParseArray(old(Rest())[1..], depth))
      decreases |chars| - pos, 2
    {
      var open := Expect('[');
      SkipWs();
      if Peek() == Some(']') {
        pos := pos + 1;
        return Ok(Array([]));
      }
      var items :- ParseItems();
      r := Ok(Array(items));
    }

    method ParseItems() returns (r: Result<seq<JcsValue>>)
      requires Valid()
      modifies this
      ensures Valid() && depth == old(depth)
      ensures Agrees(r, Spec.ParseItems(old(Rest()), depth))
      decreases |chars| - pos, 4
    {
      ghost var s := Rest();
      var items := [];
      Spec.PrependNone(Spec.ParseItems(s, depth));
      while true
        invariant Valid() && pos >= old(pos) && depth == old(depth) && ItemsFrom(s, items)
        decreases |chars| - pos
      {
        SkipWs();
        var value :- ParseValue();
        ghost var done := items;
        items := items + [value];
        var more :- Separator(']');
        if !more {
          return Ok(items);
        }
        Spec.PrependOneMore(done, value, Spec.ParseItems(Rest(), depth));
      }
    }

    /** Where the loop over object members stands. */
    ghost predicate MembersFrom(s: string, members: seq<Member>, seen: set<string>)
      requires Valid()
      reads this
    {
      Spec.ParseMembers(s, depth, {}) == Spec.Prepend(members, Spec.ParseMembers(Rest(), depth, seen))
    }

    /** The member name, its colon and the white space up to the value. */
    method ParseKey(seen: set<string>) returns (r: Result<string>)
      requires Valid()
      modifies this`pos
      ensures Valid()
      ensures var k := Spec.ParseKey(old(Rest()));
              if k.Done? && k.value !in seen then r == Ok(k.value) && Rest() == k.rest
              else r == Err(CanonicalizationFailed)
    {
      SkipWs();
      if Peek() != Some('"') {
        return Err(CanonicalizationFailed);
      }
      var key :- ParseString();
      if key in seen {
        return Err(CanonicalizationFailed);
      }
      SkipWs();
      var colon :- Expect(':');
      SkipWs();
      r := Ok(key);
    }

    method ParseObject() returns (r: Result<JcsValue>)
      requires Valid() && Rest() != [] && Rest()[0] == '{'
      modifies this
      ensures Valid() && depth == old(depth)
      ensures Agrees(r, Spec.ParseObject(old(Rest())[1..], depth))
      decreases |chars| - pos, 2
    {
      var open := Expect('{');
      SkipWs();
      if Peek() == Some('}') {
        pos := pos + 1;
        return Ok(Object([]));
      }
      var members :- ParseMembers();
      r := Ok(Object(members));
    }

    method ParseMembers() returns (r: Result<seq<Member>>)
      requires Valid()
      modifies this
      ensures Valid() && depth == old(depth)
      ensures Agrees(r, Spec.ParseMembers(old(Rest()), depth, {}))
      decreases |chars| - pos, 4
    {
      ghost var s := Rest();
      var members := [];
      var seen := {};
      Spec.PrependNone(Spec.ParseMembers(s, depth, seen));
      while true
        invariant Valid() && pos >= old(pos) && depth == old(depth) && MembersFrom(s, members, seen)
        decreases |chars| - pos
      {
        var key :- ParseKey(seen);
        seen := seen + {key};
        var value :- ParseValue();
        ghost var done := members;
        members := members + [Member(key, value)];
        var more :- Separator('}');
        if !more {
          return Ok(members);
        }
        Spec.PrependOneMore(done, Member(key, value), Spec.ParseMembers(Rest(), depth, seen));
      }
    }
  }

  /** Parse a whole text: white space, one value, white space, nothing else. */
  method Parse(text: string) returns (r: Result<JcsValue>)
    ensures r == Spec.Parse(text)
  {
    var parser := new Parser(text);
    parser.SkipWs();
    var value :- parser.ParseValue();
    parser.SkipWs();
    if !parser.AtEnd() {
      return Err(CanonicalizationFailed);
    }
    r := Ok(value);
  }
}
