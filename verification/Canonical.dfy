/** Canonicalization of texts and values, and what makes it a normal form. */
module Canonical {
  import opened Outcome
  import opened Jcs
  import opened Grammar
  import opened MemberOrder
  import opened Printer
  import Recognizer
  import JcsParser

  function CanonicalizeValue(v: JcsValue): Result<string> {
    if Printable(v, 0) then Ok(Print(v)) else Err(CanonicalizationFailed)
  }

  function Canonicalize(text: string): Result<string> {
    var v :- Recognizer.Parse(text);
    CanonicalizeValue(v)
  }

  method EmitValue(v: JcsValue) returns (r: Result<string>)
    ensures r == CanonicalizeValue(v)
  {
    var writer := new Writer();
    var ok := writer.WriteValue(v, 0);
    assert ok ==> writer.out == "" + Print(v) == Print(v);
    r := if ok then Ok(writer.out) else Err(CanonicalizationFailed);
  }

  method EmitText(text: string) returns (r: Result<string>)
    ensures r == Canonicalize(text)
  {
    var v :- JcsParser.Parse(text);
    r := EmitValue(v);
  }

  /** Printing then parsing gives the value with its members sorted, or fails on an unsafe integer. */
  lemma RoundTrip(v: JcsValue)
    requires Printable(v, 0)
    ensures Recognizer.Parse(Print(v)) ==
            if Safe(v) then Ok(Normalize(v)) else Err(CanonicalizationFailed)
  {
    var n := Normalize(v);
    NormalizePrintable(v, 0);
    CanonValid(n, 0);
    CanonValue(n);
    NormalizeSafe(v);
    Recognizer.ParseTree("", CanonTree(n), "");
    assert "" + TextThen(CanonTree(n), "") == Print(v);
  }

  /** The canonical text of a safe value is a text of the grammar for its normal form. */
  lemma PrintDerives(v: JcsValue)
    requires Printable(v, 0) && Safe(v)
    ensures Derives(Print(v), Normalize(v))
  {
    RoundTrip(v);
    Recognizer.ParseDecidesGrammar(Print(v), Normalize(v));
  }

  /** Once a text parses, canonicalizing it cannot fail. */
  lemma CanonicalizeTotal(text: string)
    ensures Canonicalize(text).Ok? <==> Recognizer.Parse(text).Ok?
  {
    if Recognizer.Parse(text).Ok? {
      Recognizer.ParsedInDomain(text);
    }
  }

  /** Canonical texts are equal exactly when the values differ in member order only. */
  lemma PrintInjective(v: JcsValue, w: JcsValue)
    requires Printable(v, 0) && Printable(w, 0) && Safe(v) && Safe(w)
    ensures Print(v) == Print(w) <==> SameUpToOrder(v, w)
  {
    RoundTrip(v);
    RoundTrip(w);
    NormalFormsAgree(v, w, 0);
  }

  lemma CanonicalizeInjective(a: string, b: string)
    requires Recognizer.Parse(a).Ok? && Recognizer.Parse(b).Ok?
    ensures Canonicalize(a) == Canonicalize(b) <==>
            SameUpToOrder(Recognizer.Parse(a).value, Recognizer.Parse(b).value)
  {
    Recognizer.ParsedInDomain(a);
    Recognizer.ParsedInDomain(b);
    PrintInjective(Recognizer.Parse(a).value, Recognizer.Parse(b).value);
  }

  lemma {:induction false} NormalizeTwice(v: JcsValue, depth: nat)
    requires Printable(v, depth)
    ensures Normalize(Normalize(v)) == Normalize(v)
  {
    match v
    case Array(items) =>
      var xs := NormalizeItems(items);
      forall i | 0 <= i < |xs| ensures NormalizeItems(xs)[i] == xs[i] {
        NormalizeTwice(items[i], depth + 1);
      }
      assert NormalizeItems(xs) == xs;
    case Object(ms) =>
      var ns := NormalizeMembers(ms);
      forall i | 0 <= i < |ns| ensures NormalizeMembers(ns)[i] == ns[i] {
        NormalizeTwice(ms[i].value, depth + 1);
      }
      assert NormalizeMembers(ns) == ns;
      SortNormalize(ns);
      SortElements(ns);
      SortStrict(ns);
      StrictIsUnique(SortMembers(ns));
      MembersSame(SortMembers(ns), ns);
    case _ =>
  }

  /** Canonical text is its own canonical form. */
  lemma CanonicalizeIdempotent(text: string)
    requires Canonicalize(text).Ok?
    ensures Canonicalize(Canonicalize(text).value) == Canonicalize(text)
  {
    var v := Recognizer.Parse(text).value;
    Recognizer.ParsedInDomain(text);
    RoundTrip(v);
    NormalizePrintable(v, 0);
    NormalizeTwice(v, 0);
  }
}
