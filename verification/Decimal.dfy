/** Unsigned decimal numbers: the printer, and a parser that refuses anything but digits and
    anything that does not fit. */
module Decimal {
  import opened Basics

  predicate IsDigit(c: char) {
    '0' <= c <= '9'
  }

  predicate IsDecimal(s: string) {
    s != [] && forall i | 0 <= i < |s| :: IsDigit(s[i])
  }

  function DigitValue(c: char): (d: nat)
    requires IsDigit(c)
    ensures d < 10
  {
    (c - '0') as nat
  }

  function Digit(d: nat): (c: char)
    requires d < 10
    ensures IsDigit(c) && DigitValue(c) == d
  {
    '0' + d as char
  }

  /** The number a string of digits denotes; leading zeros are allowed. */
  function Value(s: string): nat
    requires forall i | 0 <= i < |s| :: IsDigit(s[i])
  {
    if s == [] then 0 else 10 * Value(s[..|s| - 1]) + DigitValue(s[|s| - 1])
  }

  /** parse_decimal for an unsigned type with `modulus` values. */
  function ParseDecimal(s: string, modulus: nat): Option<nat> {
    if IsDecimal(s) && Value(s) < modulus then Some(Value(s)) else None
  }

  /** to_string. */
  function Print(n: nat): (s: string)
    ensures IsDecimal(s)
  {
    if n < 10 then [Digit(n)] else Print(n / 10) + [Digit(n % 10)]
  }

  lemma {:induction false} PrintValue(n: nat)
    ensures Value(Print(n)) == n
  {
    if n >= 10 {
      PrintValue(n / 10);
      assert Print(n)[..|Print(n)| - 1] == Print(n / 10);
    } else {
      assert Print(n)[..0] == [];
    }
  }

  /** Printing a parsed number never needs more characters than were parsed. */
  lemma {:induction false} PrintNoLonger(s: string)
    requires IsDecimal(s)
    ensures |Print(Value(s))| <= |s|
  {
    var n := |s| - 1;
    if n == 0 {
      assert s[..0] == [];
    } else {
      PrintNoLonger(s[..n]);
      if Value(s) >= 10 {
        assert Value(s) / 10 == Value(s[..n]);
      }
    }
  }

  function Pow10(n: nat): nat {
    if n == 0 then 1 else 10 * Pow10(n - 1)
  }

  /** Positional notation: the digits of `t` shift those of `s` to the left. */
  lemma {:induction false} ValueOfDigits(s: string, t: string)
    requires forall i | 0 <= i < |s| :: IsDigit(s[i])
    requires forall i | 0 <= i < |t| :: IsDigit(t[i])
    ensures forall i | 0 <= i < |s + t| :: IsDigit((s + t)[i])
    ensures Value(s + t) == Value(s) * Pow10(|t|) + Value(t)
    ensures |t| == 1 ==> t == [('0' as int + Value(t)) as char]
  {
    if t == [] {
      assert s + t == s;
    } else {
      var n := |t| - 1;
      ValueOfDigits(s, t[..n]);
      assert (s + t)[..|s + t| - 1] == s + t[..n];
      Shift(Value(s), Pow10(n));
    }
  }

  lemma {:induction false} Shift(x: nat, p: nat)
    ensures 10 * (x * p) == x * (10 * p)
  {
  }

  /** A number below 10^k has at most k digits. */
  lemma {:induction false} PrintLength(n: nat, k: nat)
    requires k > 0 && n < Pow10(k)
    ensures |Print(n)| <= k
  {
    if n >= 10 {
      PrintLength(n / 10, k - 1);
    }
  }
}
