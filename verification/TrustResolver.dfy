/** The in-memory trust resolver: a map from text keys that behaves as a map from (signer, key id) pairs. */
module TrustResolver {
  import opened Outcome
  import opened Pipeline
  import Decimal
  import Text

  datatype BindingState = Active(key: Key) | Disabled

  // ----- Length-prefixed keys -----

  function Utf8Width(c: char): nat {
    var n := c as int;
    if n < 0x80 then 1 else if n < 0x800 then 2 else if n < 0x10000 then 3 else 4
  }

  /** The number of UTF-8 bytes in a text. */
  function ByteLength(s: string): nat {
    if s == "" then 0 else Utf8Width(s[0]) + ByteLength(s[1..])
  }

  function ComposeKey(signer: string, keyId: string): string {
    Decimal.Show(ByteLength(signer)) + (":" + (signer + ("|" + (Decimal.Show(ByteLength(keyId)) + (":" + keyId)))))
  }

  /** Numbers written before a colon, and what follows, are determined. */
  lemma LengthDetermined(m: nat, n: nat, x: string, y: string)
    requires Decimal.Show(m) + (":" + x) == Decimal.Show(n) + (":" + y)
    ensures m == n && x == y
  {
    Decimal.ShowHasDigitsOnly(m, ':');
    Decimal.ShowHasDigitsOnly(n, ':');
    Text.CutAt(':', Decimal.Show(m), Decimal.Show(n), ":" + x, ":" + y);
    Decimal.ShowInjective(m, n);
    Text.DropPrefix(":", x, y);
  }

  /** A prefix of a text is determined by its byte length. */
  lemma {:induction false} PrefixDetermined(a: string, b: string, x: string, y: string)
    requires a + x == b + y && ByteLength(a) == ByteLength(b)
    ensures a == b && x == y
  {
    if a == "" || b == "" {
      assert a == b == "";
      assert x == a + x && y == b + y;
    } else {
      var s := a + x;
      assert s[0] == a[0] && s[0] == b[0];
      assert a[1..] + x == s[1..] && b[1..] + y == s[1..];
      PrefixDetermined(a[1..], b[1..], x, y);
      assert a == [a[0]] + a[1..] && b == [b[0]] + b[1..];
    }
  }

  /** Distinct pairs have distinct keys, whatever characters their fields contain. */
  lemma ComposeInjective(s: string, k: string, t: string, l: string)
    ensures ComposeKey(s, k) == ComposeKey(t, l) <==> s == t && k == l
  {
    if ComposeKey(s, k) == ComposeKey(t, l) {
      var (x, y) := (Decimal.Show(ByteLength(k)) + (":" + k), Decimal.Show(ByteLength(l)) + (":" + l));
      LengthDetermined(ByteLength(s), ByteLength(t), s + ("|" + x), t + ("|" + y));
      PrefixDetermined(s, t, "|" + x, "|" + y);
      Text.DropPrefix("|", x, y);
      LengthDetermined(ByteLength(k), ByteLength(l), k, l);
    }
  }

  // ----- The resolver refines a map keyed by pairs -----

  type Pair = (string, string)

  /** What a map keyed by pairs answers. */
  function Answer(pairs: map<Pair, BindingState>, signer: string, keyId: string): Resolution {
    if (signer, keyId) !in pairs then Refused(NotFound)
    else match pairs[(signer, keyId)]
      case Active(key) => Resolved(key)
      case Disabled => Refused(Revoked)
  }

  /** The text-keyed map holds exactly the pairs' bindings, each under its composed key. */
  ghost predicate Represents(bindings: map<string, BindingState>, pairs: map<Pair, BindingState>) {
    && (forall p :: p in pairs ==> ComposeKey(p.0, p.1) in bindings && bindings[ComposeKey(p.0, p.1)] == pairs[p])
    && (forall text :: text in bindings ==> exists p :: p in pairs && ComposeKey(p.0, p.1) == text)
  }

  lemma InsertRepresents(bindings: map<string, BindingState>, pairs: map<Pair, BindingState>, signer: string, keyId: string, b: BindingState)
    requires Represents(bindings, pairs)
    ensures Represents(bindings[ComposeKey(signer, keyId) := b], pairs[(signer, keyId) := b])
  {
    var bindings', pairs' := bindings[ComposeKey(signer, keyId) := b], pairs[(signer, keyId) := b];
    forall p | p in pairs' ensures ComposeKey(p.0, p.1) in bindings' && bindings'[ComposeKey(p.0, p.1)] == pairs'[p] {
      ComposeInjective(p.0, p.1, signer, keyId);
    }
    forall text | text in bindings' ensures exists p :: p in pairs' && ComposeKey(p.0, p.1) == text {
      if text == ComposeKey(signer, keyId) {
        assert (signer, keyId) in pairs';
      } else {
        var p :| p in pairs && ComposeKey(p.0, p.1) == text;
        assert p in pairs';
      }
    }
  }

  lemma LookupRepresents(bindings: map<string, BindingState>, pairs: map<Pair, BindingState>, signer: string, keyId: string)
    requires Represents(bindings, pairs)
    ensures ComposeKey(signer, keyId) in bindings <==> (signer, keyId) in pairs
    ensures (signer, keyId) in pairs ==> bindings[ComposeKey(signer, keyId)] == pairs[(signer, keyId)]
  {
    if ComposeKey(signer, keyId) in bindings {
      var p :| p in pairs && ComposeKey(p.0, p.1) == ComposeKey(signer, keyId);
      ComposeInjective(p.0, p.1, signer, keyId);
      assert p == (signer, keyId);
    }
    if (signer, keyId) in pairs {
      var p := (signer, keyId);
      assert ComposeKey(p.0, p.1) in bindings;
    }
  }

  class InMemoryTrustResolver {
    var bindings: map<string, BindingState>
    ghost var pairs: map<Pair, BindingState>

    ghost predicate Valid()
      reads this
    {
      Represents(bindings, pairs)
    }

    constructor ()
      ensures Valid() && pairs == map[]
    {
      bindings := map[];
      pairs := map[];
    }

    method Insert(signer: string, keyId: string, key: Key)
      requires Valid()
      modifies this
      ensures Valid() && pairs == old(pairs)[(signer, keyId) := Active(key)]
    {
      InsertRepresents(bindings, pairs, signer, keyId, Active(key));
      bindings := bindings[ComposeKey(signer, keyId) := Active(key)];
      pairs := pairs[(signer, keyId) := Active(key)];
    }

    method Revoke(signer: string, keyId: string)
      requires Valid()
      modifies this
      ensures Valid() && pairs == old(pairs)[(signer, keyId) := Disabled]
    {
      InsertRepresents(bindings, pairs, signer, keyId, Disabled);
      bindings := bindings[ComposeKey(signer, keyId) := Disabled];
      pairs := pairs[(signer, keyId) := Disabled];
    }

    method Resolve(signer: string, keyId: string) returns (r: Resolution)
      requires Valid()
      ensures r == Answer(pairs, signer, keyId)
    {
      LookupRepresents(bindings, pairs, signer, keyId);
      var text := ComposeKey(signer, keyId);
      if text !in bindings {
        return Refused(NotFound);
      }
      match bindings[text] {
        case Active(key) => return Resolved(key);
        case Disabled => return Refused(Revoked);
      }
    }
  }
}
