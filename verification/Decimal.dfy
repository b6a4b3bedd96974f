/** Decimal text of natural numbers: Rust's integer `Display`, and its inverse. */
module Decimal {

  predicate IsDigit(c: char) { '0' <= c <= '9' }

  predicate AllDigits(s: string) { forall i :: 0 <= i < |s| ==> IsDigit(s[i]) }

  function DigitChar(d: nat): char
    requires d < 10
  {
    '0' + d as char
  }

  function DigitValue(c: char): nat
    requires IsDigit(c)
  {
    c as int - '0' as int
  }

  /** Shortest decimal form. */
  function Show(n: nat): string {
    if n < 10 then [DigitChar(n)] else Show(n / 10) + [DigitChar(n % 10)]
  }

  /** The number a digit string denotes; leading zeros are allowed. */
  function Read(s: string): nat
    requires AllDigits(s)
  {
    if s == [] then 0 else Read(s[..|s|-1]) * 10 + DigitValue(s[|s|-1])
  }

  /** No digit string but "0" itself starts with a zero. */
  predicate Shortest(s: string) {
    s != [] && AllDigits(s) && (|s| == 1 || s[0] != '0')
  }

  lemma DigitOfChar(d: nat)
    requires d < 10
    ensures IsDigit(DigitChar(d)) && DigitValue(DigitChar(d)) == d
  {
  }

  lemma ReadAppend(s: string, c: char)
    requires AllDigits(s) && IsDigit(c)
    ensures AllDigits(s + [c]) && Read(s + [c]) == Read(s) * 10 + DigitValue(c)
  {
    assert (s + [c])[..|s|] == s;
  }

  lemma {:induction false} ReadShow(n: nat)
    ensures Shortest(Show(n)) && Read(Show(n)) == n
    ensures n > 0 ==> Show(n)[0] != '0'
  {
    DigitOfChar(n % 10);
    if n >= 10 {
      ReadShow(n / 10);
      ReadAppend(Show(n / 10), DigitChar(n % 10));
    } else {
      ReadAppend([], DigitChar(n));
      assert [] + [DigitChar(n)] == Show(n);
    }
  }

  lemma {:induction false} ReadPositive(s: string)
    requires Shortest(s) && s[0] != '0'
    ensures Read(s) > 0
  {
    if |s| > 1 {
      ReadPositive(s[..|s|-1]);
    }
  }

  /** The shortest form of a number is unique, so `Show` inverts `Read` on it. */
  lemma {:induction false} ShowRead(s: string)
    requires Shortest(s)
    ensures Show(Read(s)) == s
  {
    if |s| > 1 {
      var init := s[..|s|-1];
      ShowRead(init);
      ReadPositive(init);
      assert s == init + [s[|s|-1]];
    }
  }

  /** Two numbers with the same text are the same number. */
  lemma ShowInjective(m: nat, n: nat)
    requires Show(m) == Show(n)
    ensures m == n
  {
    ReadShow(m);
    ReadShow(n);
  }

  /** A decimal text contains no other character. */
  lemma {:induction false} ShowHasDigitsOnly(n: nat, c: char)
    requires !IsDigit(c)
    ensures c !in Show(n)
  {
    if n >= 10 {
      ShowHasDigitsOnly(n / 10, c);
    }
  }
}
