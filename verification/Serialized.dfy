/** The compact text of a message, and that it means the message and no other. */
module Serialized {
  import opened Outcome
  import opened Message
  import Grammar
  import Jcs
  import Printer
  import Recognizer

  /** In the canonical domain at its nesting level, with no repeated key at any level. */
  predicate Fine(v: Value, depth: nat) {
    ToJcs(v, depth).Some? && Jcs.Printable(ToJcs(v, depth).value, depth)
  }

  /** No white space, members as listed. */
  function Compact(v: Value): string
    requires Fine(v, 0)
  {
    Grammar.TextThen(Printer.CanonTree(ToJcs(v, 0).value), "")
  }

  lemma CompactParses(v: Value)
    requires Fine(v, 0)
    ensures Recognizer.Parse(Compact(v)) == Ok(ToJcs(v, 0).value)
  {
    var value := ToJcs(v, 0).value;
    ToJcsSafe(v, 0);
    Printer.CanonValid(value, 0);
    Printer.CanonValue(value);
    Recognizer.ParseTree("", Printer.CanonTree(value), "");
    assert "" + Compact(v) == Compact(v);
  }

  /** The compact text of a fine message is a text of the grammar that means exactly it. */
  lemma CompactMeans(v: Value)
    requires Fine(v, 0)
    ensures forall j :: Grammar.Derives(Compact(v), j) <==> ToJcs(v, 0) == Some(j)
  {
    CompactParses(v);
    forall j ensures Grammar.Derives(Compact(v), j) <==> ToJcs(v, 0) == Some(j) {
      Recognizer.ParseDecidesGrammar(Compact(v), j);
    }
  }

  /** Reading as a JCS value loses nothing. */
  lemma {:induction false} ToJcsInjective(a: Value, b: Value, depth: nat)
    requires ToJcs(a, depth).Some? && ToJcs(a, depth) == ToJcs(b, depth)
    ensures a == b
  {
    match a
    case Array(items) =>
      var xs := ItemsToJcs(items, depth + 1).value;
      forall i | 0 <= i < |items| ensures items[i] == b.items[i] {
        assert ToJcs(items[i], depth + 1) == Some(xs[i]) == ToJcs(b.items[i], depth + 1);
        ToJcsInjective(items[i], b.items[i], depth + 1);
      }
    case Object(es) =>
      var ms := EntriesToJcs(es, depth + 1).value;
      forall i | 0 <= i < |es| ensures es[i] == b.entries[i] {
        assert EntryToJcs(es[i], depth + 1) == Some(ms[i]) == EntryToJcs(b.entries[i], depth + 1);
        ToJcsInjective(es[i].value, b.entries[i].value, depth + 1);
      }
    case _ =>
  }

  /** Distinct messages have distinct compact texts. */
  lemma CompactInjective(a: Value, b: Value)
    requires Fine(a, 0) && Fine(b, 0)
    ensures Compact(a) == Compact(b) <==> a == b
  {
    if Compact(a) == Compact(b) {
      CompactParses(a);
      CompactParses(b);
      ToJcsInjective(a, b, 0);
    }
  }

  /** What fits at a nesting level fits at every shallower one, and reads the same. */
  lemma {:induction false} ToJcsShallower(v: Value, depth: nat, depth': nat)
    requires ToJcs(v, depth).Some? && depth' <= depth
    ensures ToJcs(v, depth') == ToJcs(v, depth)
  {
    match v
    case Array(items) =>
      forall i | 0 <= i < |items| ensures ToJcs(items[i], depth' + 1) == ToJcs(items[i], depth + 1) {
        assert ToJcs(items[i], depth + 1).Some?;
        ToJcsShallower(items[i], depth + 1, depth' + 1);
      }
      assert ItemsToJcs(items, depth' + 1).value == ItemsToJcs(items, depth + 1).value;
    case Object(es) =>
      forall i | 0 <= i < |es| ensures EntryToJcs(es[i], depth' + 1) == EntryToJcs(es[i], depth + 1) {
        assert EntryToJcs(es[i], depth + 1).Some?;
        ToJcsShallower(es[i].value, depth + 1, depth' + 1);
      }
      assert EntriesToJcs(es, depth' + 1).value == EntriesToJcs(es, depth + 1).value;
    case _ =>
  }

  lemma {:induction false} PrintableShallower(v: Jcs.JcsValue, depth: nat, depth': nat)
    requires Jcs.Printable(v, depth) && depth' <= depth
    ensures Jcs.Printable(v, depth')
  {
    match v
    case Array(items) =>
      forall i | 0 <= i < |items| ensures Jcs.Printable(items[i], depth' + 1) {
        PrintableShallower(items[i], depth + 1, depth' + 1);
      }
    case Object(ms) =>
      forall i | 0 <= i < |ms| ensures Jcs.Printable(ms[i].value, depth' + 1) {
        PrintableShallower(ms[i].value, depth + 1, depth' + 1);
      }
    case _ =>
  }

  lemma FineShallower(v: Value, depth: nat, depth': nat)
    requires Fine(v, depth) && depth' <= depth
    ensures Fine(v, depth')
  {
    ToJcsShallower(v, depth, depth');
    PrintableShallower(ToJcs(v, depth).value, depth, depth');
  }
}
