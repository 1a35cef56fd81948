/** Decimal rendering of natural numbers, as Python's `str()` (and an f-string
    placeholder) renders a non-negative `int`, together with its inverse. */
module Decimal {
  import opened Wrappers

  predicate IsDigit(c: char) {
    '0' <= c <= '9'
  }

  predicate AllDigits(s: string) {
    forall i :: 0 <= i < |s| ==> IsDigit(s[i])
  }

  function DigitValue(c: char): int {
    c as int - '0' as int
  }

  function DigitChar(d: nat): (c: char)
    requires d < 10
    ensures IsDigit(c) && DigitValue(c) == d
  {
    ('0' as int + d) as char
  }

  /** The shortest decimal numeral of `n`: at least one digit and no leading zero. */
  function NatToString(n: nat): (s: string)
    ensures |s| >= 1 && AllDigits(s)
    ensures s[0] == '0' ==> n == 0 && s == "0"
    decreases n
  {
    if n < 10 then [DigitChar(n)] else NatToString(n / 10) + [DigitChar(n % 10)]
  }

  /** Reads a string of digits back as the number it denotes. */
  function DigitsToNat(s: string): nat
    requires AllDigits(s)
  {
    if s == [] then 0
    else
      DigitsToNat(s[..|s| - 1]) * 10 + DigitValue(s[|s| - 1])
  }

  lemma {:induction false} NatToStringRoundTrip(n: nat)
    ensures DigitsToNat(NatToString(n)) == n
    decreases n
  {
    var s := NatToString(n);
    if n < 10 {
      assert s[..|s| - 1] == [];
    } else {
      NatToStringRoundTrip(n / 10);
      assert s[..|s| - 1] == NatToString(n / 10);
    }
  }

  /** Distinct numbers render as distinct numerals. */
  lemma NatToStringInjective(a: nat, b: nat)
    ensures NatToString(a) == NatToString(b) <==> a == b
  {
    if NatToString(a) == NatToString(b) {
      NatToStringRoundTrip(a);
      NatToStringRoundTrip(b);
    }
  }

  /** Length of the run of digits at the start of `s`. */
  function DigitRun(s: string): (k: nat)
    ensures k <= |s|
  {
    if s == [] || !IsDigit(s[0]) then 0 else 1 + DigitRun(s[1..])
  }

  predicate StartsWithNonDigit(s: string) {
    s == [] || !IsDigit(s[0])
  }

  lemma {:induction false} DigitRunOfNumeral(a: string, x: string)
    requires AllDigits(a) && StartsWithNonDigit(x)
    ensures DigitRun(a + x) == |a|
  {
    if a == [] {
      assert a + x == x;
    } else {
      assert (a + x)[1..] == a[1..] + x;
      DigitRunOfNumeral(a[1..], x);
    }
  }

  /** Reads digits left to right onto `acc`, stopping at the first non-digit;
      returns the number and the unread text. */
  function ReadDigitsFrom(s: string, acc: nat): (nat, string) {
    if s == [] || !IsDigit(s[0]) then (acc, s)
    else ReadDigitsFrom(s[1..], acc * 10 + DigitValue(s[0]))
  }

  /** The numeral at the start of `s` and the text after it, or `None` when
      `s` does not start with a digit. */
  function ReadNumeral(s: string): Option<(nat, string)> {
    if s == [] || !IsDigit(s[0]) then None else Some(ReadDigitsFrom(s, 0))
  }

  lemma {:induction false} ReadDigitsFromNumeral(p: string, a: string, x: string)
    requires AllDigits(p) && AllDigits(a) && StartsWithNonDigit(x)
    ensures ReadDigitsFrom(a + x, DigitsToNat(p)) == (DigitsToNat(p + a), x)
    decreases |a|
  {
    if a == [] {
      assert a + x == x && p + a == p;
    } else {
      var q := p + [a[0]];
      assert q[..|q| - 1] == p;
      assert (a + x)[0] == a[0] && (a + x)[1..] == a[1..] + x;
      ReadDigitsFromNumeral(q, a[1..], x);
      assert q + a[1..] == p + a;
    }
  }

  /** A numeral followed by text that does not continue it reads back as its
      value and that text. */
  lemma ReadNumeralOf(n: nat, x: string)
    requires StartsWithNonDigit(x)
    ensures ReadNumeral(NatToString(n) + x) == Some((n, x))
  {
    var a := NatToString(n);
    assert (a + x)[0] == a[0];
    ReadDigitsFromNumeral([], a, x);
    assert [] + a == a;
    NatToStringRoundTrip(n);
  }
}
