/** Base-10 integers as text: Python's str(int) on the way out, and the pieces of int(str) and
    str.isdigit() that the readers need on the way back. */
module Decimal {

  predicate IsDigit(c: char) {
    '0' <= c <= '9'
  }

  predicate AllDigits(s: string) {
    forall i :: 0 <= i < |s| ==> IsDigit(s[i])
  }

  function DigitChar(d: nat): (c: char)
    requires d < 10
    ensures IsDigit(c) && DigitValue(c) == d
  {
    '0' + d as char
  }

  function DigitValue(c: char): nat
    requires IsDigit(c)
  {
    (c - '0') as nat
  }

  /** str(n) for n >= 0. */
  function NatToString(n: nat): (s: string)
    ensures |s| > 0 && AllDigits(s)
  {
    if n < 10 then [DigitChar(n)] else NatToString(n / 10) + [DigitChar(n % 10)]
  }

  function StringToNat(s: string): nat
    requires AllDigits(s)
  {
    if s == [] then 0 else StringToNat(s[..|s| - 1]) * 10 + DigitValue(s[|s| - 1])
  }

  /** str(n) for any int. */
  function IntToString(n: int): string {
    if n < 0 then "-" + NatToString(-n) else NatToString(n)
  }

  lemma {:induction false} NatRoundTrip(n: nat)
    ensures StringToNat(NatToString(n)) == n
  {
    if n < 10 {
    } else {
      NatRoundTrip(n / 10);
      assert NatToString(n)[..|NatToString(n)| - 1] == NatToString(n / 10);
    }
  }

  lemma {:induction false} NoLeadingZero(n: nat)
    ensures n > 0 ==> NatToString(n)[0] != '0'
  {
    if n < 10 {
    } else {
      NoLeadingZero(n / 10);
    }
  }

  lemma IntToStringInjective(a: int, b: int)
    requires IntToString(a) == IntToString(b)
    ensures a == b
  {
    var s := IntToString(a);
    assert a < 0 <==> s[0] == '-';
    assert b < 0 <==> s[0] == '-';
    if a < 0 {
      assert NatToString(-a) == s[1..] == NatToString(-b);
      NatRoundTrip(-a);
      NatRoundTrip(-b);
    } else {
      NatRoundTrip(a);
      NatRoundTrip(b);
    }
  }

  /** Zero-padding on the left up to a width: the :04d of a format string. */
  function Padded(n: nat, width: nat): string {
    var s := NatToString(n);
    Zeros(if |s| < width then width - |s| else 0) + s
  }

  function Zeros(k: nat): (s: string)
    ensures |s| == k && AllDigits(s)
  {
    if k == 0 then "" else "0" + Zeros(k - 1)
  }

  lemma {:induction false} LeadingZeros(k: nat, s: string)
    requires AllDigits(s)
    ensures StringToNat(Zeros(k) + s) == StringToNat(s)
    decreases |s|, k
  {
    var t := Zeros(k) + s;
    if s == [] && k == 0 {
    } else if s == [] {
      assert t == Zeros(k) == Zeros(k - 1) + "0" by { ZerosCommute(k - 1); }
      assert t[..|t| - 1] == Zeros(k - 1) + s;
      LeadingZeros(k - 1, s);
    } else {
      assert t[..|t| - 1] == Zeros(k) + s[..|s| - 1];
      LeadingZeros(k, s[..|s| - 1]);
    }
  }

  lemma {:induction false} ZerosCommute(k: nat)
    ensures "0" + Zeros(k) == Zeros(k) + "0"
  {
    if k == 0 {
    } else {
      ZerosCommute(k - 1);
    }
  }

  lemma {:induction false} PaddedIs(n: nat, width: nat)
    ensures var s := NatToString(n);
            && |Padded(n, width)| == (if |s| < width then width else |s|)
            && (|s| >= width ==> Padded(n, width) == s) && (n == 0 ==> |s| == 1)
  {
    assert Zeros(0) == "";
  }

  lemma PaddedInjective(a: nat, b: nat, width: nat)
    requires Padded(a, width) == Padded(b, width)
    ensures a == b
  {
    PaddedReads(a, width);
    PaddedReads(b, width);
  }

  /** Padding does not change what is read. */
  lemma PaddedReads(n: nat, width: nat)
    ensures AllDigits(Padded(n, width)) && StringToNat(Padded(n, width)) == n
  {
    var s := NatToString(n);
    var k := if |s| < width then width - |s| else 0;
    assert Padded(n, width) == Zeros(k) + s;
    NatRoundTrip(n);
    hide NatToString, StringToNat, Zeros, Padded;
    LeadingZeros(k, s);
  }

  /** Two texts that agree, each a run of digits followed by something that is not a digit,
      agree in both parts. */
  lemma DigitRunSplits(x: string, y: string, r: string, s: string)
    requires AllDigits(x) && AllDigits(y)
    requires r == [] || !IsDigit(r[0])
    requires s == [] || !IsDigit(s[0])
    requires x + r == y + s
    ensures x == y && r == s
  {
    var k := if |x| < |y| then |x| else |y|;
    assert k == |x + r| || (x + r)[k] == (y + s)[k];
    assert x == (x + r)[..|x|];
    assert y == (y + s)[..|y|];
    assert r == (x + r)[|x|..];
    assert s == (y + s)[|y|..];
  }
}
