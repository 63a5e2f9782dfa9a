/**
 * Decimal rendering of integers, as Swift's `String(Int)` and
 * `String(format: "%02d", _)` produce it, together with a parser that
 * serves as its inverse.
 */
module Decimal {

  predicate IsDigit(c: char) {
    '0' <= c <= '9'
  }

  predicate AllDigits(s: string) {
    forall i :: 0 <= i < |s| ==> IsDigit(s[i])
  }

  function DigitChar(d: nat): (c: char)
    requires d < 10
    ensures IsDigit(c)
  {
    ('0' as int + d) as char
  }

  function DigitValue(c: char): (d: nat)
    requires IsDigit(c)
    ensures d < 10
    ensures DigitChar(d) == c
  {
    c as int - '0' as int
  }

  function Pow10(k: nat): (p: nat)
    ensures p >= 1
  {
    if k == 0 then 1 else 10 * Pow10(k - 1)
  }

  /** Shortest decimal digits of `n`. */
  function NatToString(n: nat): (s: string)
    ensures |s| >= 1 && AllDigits(s)
    decreases n
  {
    if n < 10 then [DigitChar(n)] else NatToString(n / 10) + [DigitChar(n % 10)]
  }

  /** Value of a digit string; the empty string reads as 0. */
  function ParseNat(s: string): nat
    requires AllDigits(s)
  {
    if s == [] then 0 else ParseNat(s[..|s| - 1]) * 10 + DigitValue(s[|s| - 1])
  }

  /** Swift's `String(n)` for an `Int`: a minus sign, then the digits. */
  function IntToString(n: int): string {
    if n >= 0 then NatToString(n) else "-" + NatToString(-n)
  }

  /** A non-negative number renders as digits that read back to it; a negative one starts with its sign. */
  lemma IntToStringSpec(n: int)
    ensures |IntToString(n)| >= 1
    ensures n >= 0 ==> AllDigits(IntToString(n)) && ParseNat(IntToString(n)) == n
    ensures n < 0 ==> IntToString(n)[0] == '-' && |IntToString(n)| >= 2
  {
    if n >= 0 {
      ParseNatToString(n);
    }
  }

  /**
   * `String(format: "%02d", n)`: at least two characters, padded on the left
   * with zeros. Only a single non-negative digit is short enough to be padded;
   * a negative number already has two characters counting its sign.
   */
  function Pad2(n: int): string {
    var d := IntToString(n);
    if |d| < 2 then "0" + d else d
  }

  /**
   * `Pad2` keeps the value and the rendering of `String(n)`, adding only the
   * leading zero a one-digit number needs to fill two places.
   */
  lemma Pad2Spec(n: int)
    ensures |Pad2(n)| >= 2
    ensures n >= 0 ==> AllDigits(Pad2(n)) && ParseNat(Pad2(n)) == n
    ensures 0 <= n < 100 ==> |Pad2(n)| == 2
    ensures n >= 10 || n < 0 ==> Pad2(n) == IntToString(n)
  {
    IntToStringSpec(n);
    var d := IntToString(n);
    if 0 <= n < 10 {
      assert d == [DigitChar(n)];
      var s := Pad2(n);
      assert s == ['0', DigitChar(n)];
      assert s[..1] == ['0'] && s[..1][..0] == [];
    } else if 10 <= n < 100 {
      NatToStringLength(n, 2);
    } else if n >= 100 {
      assert d == NatToString(n / 10) + [DigitChar(n % 10)];
    }
  }

  lemma {:induction false} ParseNatToString(n: nat)
    ensures ParseNat(NatToString(n)) == n
    decreases n
  {
    var s := NatToString(n);
    if n < 10 {
      assert s[..0] == [];
    } else {
      ParseNatToString(n / 10);
      assert s[..|s| - 1] == NatToString(n / 10);
    }
  }

  /** A number with `k` digits renders as exactly `k` characters. */
  lemma {:induction false} NatToStringLength(n: nat, k: nat)
    requires k >= 1
    requires Pow10(k - 1) <= n < Pow10(k)
    ensures |NatToString(n)| == k
    decreases k
  {
    if k > 1 {
      assert n >= 10;
      NatToStringLength(n / 10, k - 1);
    }
  }

  lemma FourDigits(n: nat)
    requires 1000 <= n < 10000
    ensures |NatToString(n)| == 4
  {
    assert Pow10(3) == 1000 && Pow10(4) == 10000;
    NatToStringLength(n, 4);
  }

  /** A rendered positive number never starts with a zero. */
  lemma {:induction false} NatToStringNoLeadingZero(n: nat)
    requires n >= 1
    ensures NatToString(n)[0] != '0'
    decreases n
  {
    if n >= 10 {
      NatToStringNoLeadingZero(n / 10);
    }
  }

  /** A digit string with a non-zero first digit reads as a number of that many digits. */
  lemma {:induction false} ParseNatPositive(s: string)
    requires |s| >= 1 && AllDigits(s) && s[0] != '0'
    ensures ParseNat(s) >= Pow10(|s| - 1)
    decreases |s|
  {
    if |s| > 1 {
      var p := s[..|s| - 1];
      assert p[0] == s[0];
      ParseNatPositive(p);
    }
  }

  /**
   * The other half of the round trip: a digit string without a superfluous
   * leading zero is exactly how its value renders.
   */
  lemma {:induction false} NatToStringParse(s: string)
    requires |s| >= 1 && AllDigits(s)
    requires |s| == 1 || s[0] != '0'
    ensures NatToString(ParseNat(s)) == s
    decreases |s|
  {
    var p := s[..|s| - 1];
    var d := DigitValue(s[|s| - 1]);
    if |s| == 1 {
      assert p == [];
      assert NatToString(ParseNat(s)) == [DigitChar(d)];
    } else {
      assert p[0] == s[0];
      ParseNatPositive(p);
      NatToStringParse(p);
      var n := ParseNat(s);
      assert n == ParseNat(p) * 10 + d;
      assert n / 10 == ParseNat(p) && n % 10 == d;
      assert s == p + [s[|s| - 1]];
    }
  }

  /** Two digits read back through `Pad2` unchanged, leading zero included. */
  lemma Pad2Parse(s: string)
    requires |s| == 2 && AllDigits(s)
    ensures Pad2(ParseNat(s)) == s
  {
    var n := ParseNat(s);
    assert s[..1][..0] == [];
    assert s[..|s| - 1] == s[..1];
    assert ParseNat(s[..1]) == DigitValue(s[0]);
    if s[0] == '0' {
      assert n == DigitValue(s[1]);
      assert IntToString(n) == [DigitChar(n)];
      assert Pad2(n) == ['0', s[1]];
    } else {
      ParseNatPositive(s);
      NatToStringParse(s);
      assert n >= 10;
    }
  }

}
