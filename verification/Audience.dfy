/** The audience tuple and its canonical text: distinct tuples never share one. */
module Audience {
  import Decimal
  import Text

  datatype AudienceTuple = AudienceTuple(
    scheme: string, host: string, port: nat, tenantId: string, routeId: string, realm: string)

  /** Every occurrence of a character replaced by a text. */
  function Replace(s: string, c: char, text: string): string {
    if s == "" then "" else (if s[0] == c then text else [s[0]]) + Replace(s[1..], c, text)
  }

  function EscapeField(s: string): string {
    Replace(Replace(Replace(s, '%', "%25"), ';', "%3B"), '=', "%3D")
  }

  // The text from each field on; fields are in a fixed order, each after its label.

  function FromRealm(t: AudienceTuple): string {
    EscapeField(t.realm)
  }

  function FromRoute(t: AudienceTuple): string {
    EscapeField(t.routeId) + (";realm=" + FromRealm(t))
  }

  function FromTenant(t: AudienceTuple): string {
    EscapeField(t.tenantId) + (";route=" + FromRoute(t))
  }

  function FromPort(t: AudienceTuple): string {
    Decimal.Show(t.port) + (";tenant=" + FromTenant(t))
  }

  function FromHost(t: AudienceTuple): string {
    EscapeField(t.host) + (";port=" + FromPort(t))
  }

  function FromScheme(t: AudienceTuple): string {
    EscapeField(t.scheme) + (";host=" + FromHost(t))
  }

  function ToAudienceString(t: AudienceTuple): string {
    "mcps-audience:v1:scheme=" + FromScheme(t)
  }

  // ----- Escaping in one pass, and its inverse -----

  function EscapeChar(c: char): string {
    if c == '%' then "%25" else if c == ';' then "%3B" else if c == '=' then "%3D" else [c]
  }

  function Escape(s: string): string {
    if s == "" then "" else EscapeChar(s[0]) + Escape(s[1..])
  }

  lemma {:induction false} ReplaceAppend(s: string, t: string, c: char, text: string)
    ensures Replace(s + t, c, text) == Replace(s, c, text) + Replace(t, c, text)
  {
    if s == "" {
      assert s + t == t;
    } else {
      assert (s + t)[1..] == s[1..] + t;
      ReplaceAppend(s[1..], t, c, text);
      var head := if s[0] == c then text else [s[0]];
      Text.Assoc(head, Replace(s[1..], c, text), Replace(t, c, text));
    }
  }

  /** No character of the text is the one replaced. */
  lemma {:induction false} ReplaceAbsent(s: string, c: char, text: string)
    requires c !in s
    ensures Replace(s, c, text) == s
  {
    if s != "" {
      ReplaceAbsent(s[1..], c, text);
      assert s == [s[0]] + s[1..];
    }
  }

  lemma ReplaceOne(c: char, d: char, text: string)
    ensures Replace([c], d, text) == if c == d then text else [c]
  {
    assert [c][1..] == "";
    assert Replace("", d, text) == "";
    assert text + "" == text;
  }

  lemma EscapeOneChar(c: char)
    ensures EscapeField([c]) == EscapeChar(c)
  {
    ReplaceOne(c, '%', "%25");
    ReplaceOne(c, ';', "%3B");
    ReplaceOne(c, '=', "%3D");
    ReplaceAbsent("%25", ';', "%3B");
    ReplaceAbsent("%25", '=', "%3D");
    ReplaceAbsent("%3B", '=', "%3D");
  }

  /** The three passes escape each character by itself: no pass touches what an earlier one wrote. */
  lemma {:induction false} EscapeIsCharwise(s: string)
    ensures EscapeField(s) == Escape(s)
  {
    if s != "" {
      assert s == [s[0]] + s[1..];
      ReplaceAppend([s[0]], s[1..], '%', "%25");
      var (a, b) := (Replace([s[0]], '%', "%25"), Replace(s[1..], '%', "%25"));
      ReplaceAppend(a, b, ';', "%3B");
      ReplaceAppend(Replace(a, ';', "%3B"), Replace(b, ';', "%3B"), '=', "%3D");
      EscapeOneChar(s[0]);
      EscapeIsCharwise(s[1..]);
    }
  }

  /** Read an escaped text back. */
  function Unescape(s: string): string
    decreases |s|
  {
    if s == "" then ""
    else if "%25" <= s then "%" + Unescape(s[3..])
    else if "%3B" <= s then ";" + Unescape(s[3..])
    else if "%3D" <= s then "=" + Unescape(s[3..])
    else [s[0]] + Unescape(s[1..])
  }

  lemma {:induction false} UnescapeEscape(s: string)
    ensures Unescape(Escape(s)) == s
  {
    if s != "" {
      var rest := Escape(s[1..]);
      UnescapeEscape(s[1..]);
      UnescapeStep(s[0], rest);
      assert s == [s[0]] + s[1..];
    }
  }

  lemma UnescapeStep(c: char, rest: string)
    ensures Unescape(EscapeChar(c) + rest) == [c] + Unescape(rest)
  {
    var t := EscapeChar(c) + rest;
    if c == '%' {
      EscapedStart("%25", rest);
      assert Unescape(t) == "%" + Unescape(t[3..]);
    } else if c == ';' {
      EscapedStart("%3B", rest);
      assert Unescape(t) == ";" + Unescape(t[3..]);
    } else if c == '=' {
      EscapedStart("%3D", rest);
      assert Unescape(t) == "=" + Unescape(t[3..]);
    } else {
      assert t[0] == c && t[1..] == rest;
    }
  }

  lemma EscapedStart(e: string, rest: string)
    requires |e| == 3
    ensures e <= e + rest && (e + rest)[3..] == rest && (e + rest)[1] == e[1] && (e + rest)[2] == e[2]
  {
  }

  lemma EscapeInjective(s: string, t: string)
    requires EscapeField(s) == EscapeField(t)
    ensures s == t
  {
    EscapeIsCharwise(s);
    EscapeIsCharwise(t);
    UnescapeEscape(s);
    UnescapeEscape(t);
  }

  lemma {:induction false} EscapedHasNoSeparator(s: string)
    ensures ';' !in Escape(s)
  {
    if s != "" {
      EscapedHasNoSeparator(s[1..]);
      assert ';' !in EscapeChar(s[0]);
    }
  }

  // ----- The text determines the tuple -----

  /** One escaped field and the label after it. */
  lemma FieldDetermined(f: string, g: string, tag: string, x: string, y: string)
    requires tag != "" && tag[0] == ';'
    requires EscapeField(f) + (tag + x) == EscapeField(g) + (tag + y)
    ensures f == g && x == y
  {
    EscapeIsCharwise(f);
    EscapeIsCharwise(g);
    EscapedHasNoSeparator(f);
    EscapedHasNoSeparator(g);
    Text.CutAt(';', EscapeField(f), EscapeField(g), tag + x, tag + y);
    EscapeInjective(f, g);
    Text.DropPrefix(tag, x, y);
  }

  lemma PortDetermined(m: nat, n: nat, tag: string, x: string, y: string)
    requires tag != "" && tag[0] == ';'
    requires Decimal.Show(m) + (tag + x) == Decimal.Show(n) + (tag + y)
    ensures m == n && x == y
  {
    Decimal.ShowHasDigitsOnly(m, ';');
    Decimal.ShowHasDigitsOnly(n, ';');
    Text.CutAt(';', Decimal.Show(m), Decimal.Show(n), tag + x, tag + y);
    Decimal.ShowInjective(m, n);
    Text.DropPrefix(tag, x, y);
  }

  /** Audience strings are injective: equal texts come from equal tuples. */
  lemma AudienceInjective(t: AudienceTuple, u: AudienceTuple)
    ensures ToAudienceString(t) == ToAudienceString(u) <==> t == u
  {
    if ToAudienceString(t) == ToAudienceString(u) {
      Text.DropPrefix("mcps-audience:v1:scheme=", FromScheme(t), FromScheme(u));
      FieldDetermined(t.scheme, u.scheme, ";host=", FromHost(t), FromHost(u));
      FieldDetermined(t.host, u.host, ";port=", FromPort(t), FromPort(u));
      PortDetermined(t.port, u.port, ";tenant=", FromTenant(t), FromTenant(u));
      FieldDetermined(t.tenantId, u.tenantId, ";route=", FromRoute(t), FromRoute(u));
      FieldDetermined(t.routeId, u.routeId, ";realm=", FromRealm(t), FromRealm(u));
      EscapeInjective(t.realm, u.realm);
    }
  }

  // ----- Reading the text -----

  /** The part is a label followed by the field, escaped. */
  predicate Labels(part: string, tag: string, field: string) {
    tag <= part && Unescape(part[|tag|..]) == field
  }

  /** The part is a label followed by the number in decimal. */
  predicate LabelsPort(part: string, tag: string, port: nat) {
    tag <= part && Decimal.Shortest(part[|tag|..]) && Decimal.Read(part[|tag|..]) == port
  }

  /** A labelled field is the first part of what it starts. */
  lemma PartCut(tag: string, field: string, rest: string) returns (part: string)
    requires ';' !in tag && rest != "" && rest[0] == ';'
    ensures Text.Split(tag + (EscapeField(field) + rest), ';') == [part] + Text.Split(rest[1..], ';')
    ensures Labels(part, tag, field)
  {
    part := tag + EscapeField(field);
    EscapeIsCharwise(field);
    EscapedHasNoSeparator(field);
    UnescapeEscape(field);
    assert part[|tag|..] == EscapeField(field);
    Text.Assoc(tag, EscapeField(field), rest);
    Text.SplitFirst(part, ';', rest);
  }

  lemma LastPart(tag: string, field: string)
    requires ';' !in tag
    ensures Text.Split(tag + EscapeField(field), ';') == [tag + EscapeField(field)]
    ensures Labels(tag + EscapeField(field), tag, field)
  {
    EscapeIsCharwise(field);
    EscapedHasNoSeparator(field);
    UnescapeEscape(field);
    assert (tag + EscapeField(field))[|tag|..] == EscapeField(field);
    Text.SplitLast(tag + EscapeField(field), ';');
  }

  lemma PortCut(tag: string, port: nat, rest: string) returns (part: string)
    requires ';' !in tag && rest != "" && rest[0] == ';'
    ensures Text.Split(tag + (Decimal.Show(port) + rest), ';') == [part] + Text.Split(rest[1..], ';')
    ensures LabelsPort(part, tag, port)
  {
    part := tag + Decimal.Show(port);
    Decimal.ReadShow(port);
    Decimal.ShowHasDigitsOnly(port, ';');
    assert part[|tag|..] == Decimal.Show(port);
    Text.Assoc(tag, Decimal.Show(port), rest);
    Text.SplitFirst(part, ';', rest);
  }

  lemma Tagged(tag: string, x: string)
    ensures (";" + tag + x)[1..] == tag + x
  {
  }

  lemma LaterParts(t: AudienceTuple) returns (tenant: string, route: string, realm: string)
    ensures Text.Split("tenant=" + FromTenant(t), ';') == [tenant, route, realm]
    ensures Labels(tenant, "tenant=", t.tenantId) && Labels(route, "route=", t.routeId) && Labels(realm, "realm=", t.realm)
  {
    tenant := PartCut("tenant=", t.tenantId, ";route=" + FromRoute(t));
    assert ";" + "route=" == ";route=" && ";" + "realm=" == ";realm=";
    Tagged("route=", FromRoute(t));
    route := PartCut("route=", t.routeId, ";realm=" + FromRealm(t));
    Tagged("realm=", FromRealm(t));
    LastPart("realm=", t.realm);
    realm := "realm=" + FromRealm(t);
  }

  lemma HostParts(t: AudienceTuple) returns (host: string, port: string)
    ensures Text.Split("host=" + FromHost(t), ';') == [host] + ([port] + Text.Split("tenant=" + FromTenant(t), ';'))
    ensures Labels(host, "host=", t.host) && LabelsPort(port, "port=", t.port)
  {
    assert ";" + "port=" == ";port=" && ";" + "tenant=" == ";tenant=";
    host := PartCut("host=", t.host, ";port=" + FromPort(t));
    Tagged("port=", FromPort(t));
    port := PortCut("port=", t.port, ";tenant=" + FromTenant(t));
    Tagged("tenant=", FromTenant(t));
  }

  /** Cut at its semicolons, the audience text gives every field back under its own label. */
  lemma AudienceReadsBack(t: AudienceTuple)
    ensures var parts := Text.Split(ToAudienceString(t), ';');
            && |parts| == 6
            && Labels(parts[0], "mcps-audience:v1:scheme=", t.scheme) && Labels(parts[1], "host=", t.host)
            && LabelsPort(parts[2], "port=", t.port) && Labels(parts[3], "tenant=", t.tenantId)
            && Labels(parts[4], "route=", t.routeId) && Labels(parts[5], "realm=", t.realm)
  {
    var scheme := PartCut("mcps-audience:v1:scheme=", t.scheme, ";host=" + FromHost(t));
    assert ";" + "host=" == ";host=";
    Tagged("host=", FromHost(t));
    var host, port := HostParts(t);
    var tenant, route, realm := LaterParts(t);
    assert Text.Split(ToAudienceString(t), ';') == [scheme] + ([host] + ([port] + [tenant, route, realm]));
  }
}
