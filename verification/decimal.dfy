/**
  Decimal text of integers, as produced by C's sprintf("%d") (and so by the
  `itoa` helper of 3dm-g.cpp and by std::to_string), and read back by
  sscanf("%d"), which dm-ps.c uses for the line width option.
*/
module Decimal {
  import opened Wrappers

  predicate IsDigit(c: char) {
    '0' <= c <= '9'
  }

  predicate AllDigits(s: string) {
    forall k :: 0 <= k < |s| ==> IsDigit(s[k])
  }

  /** C's isspace() in the "C" locale. */
  predicate IsSpace(c: char) {
    c == ' ' || c == '\t' || c == '\n' || c == '\r' || c == '\U{B}' || c == '\U{C}'
  }

  function DigitChar(d: nat): (c: char)
    requires d < 10
    ensures IsDigit(c)
  {
    (('0' as int) + d) as char
  }

  function DigitValue(c: char): (d: nat)
    requires IsDigit(c)
    ensures d < 10
  {
    (c as int) - ('0' as int)
  }

  /** Decimal digits of a natural number, most significant first, no leading zeros. */
  function NatToString(n: nat): string
    decreases n
  {
    if n < 10 then [DigitChar(n)] else NatToString(n / 10) + [DigitChar(n % 10)]
  }

  /** "%d" formatting: a minus sign for negative values, then the digits of the magnitude. */
  function IntToString(i: int): string {
    if i < 0 then "-" + NatToString(-i) else NatToString(i)
  }

  /** The number a string of decimal digits denotes. */
  function DigitsValue(s: string): nat
    requires AllDigits(s)
    decreases |s|
  {
    if s == [] then 0 else DigitsValue(s[..|s| - 1]) * 10 + DigitValue(s[|s| - 1])
  }

  /** NatToString writes a non-empty digit string without a leading zero (except "0" itself). */
  lemma {:induction false} NatToStringShape(n: nat)
    ensures |NatToString(n)| >= 1
    ensures AllDigits(NatToString(n))
    ensures |NatToString(n)| > 1 ==> NatToString(n)[0] != '0'
    ensures NatToString(n)[0] == '0' <==> n == 0
    decreases n
  {
    if n >= 10 {
      NatToStringShape(n / 10);
      var s := NatToString(n / 10);
      assert NatToString(n) == s + [DigitChar(n % 10)];
      assert NatToString(n)[0] == s[0];
    }
  }

  /** Reading back the digits NatToString wrote gives the number again. */
  lemma {:induction false} NatToStringRoundTrip(n: nat)
    ensures AllDigits(NatToString(n))
    ensures DigitsValue(NatToString(n)) == n
    decreases n
  {
    NatToStringShape(n);
    if n >= 10 {
      NatToStringRoundTrip(n / 10);
      var s := NatToString(n);
      assert s[..|s| - 1] == NatToString(n / 10);
    }
  }

  /** Distinct numbers have distinct decimal texts. */
  lemma IntToStringInjective(i: int, j: int)
    requires IntToString(i) == IntToString(j)
    ensures i == j
  {
    ScanIntRoundTrip(i);
    ScanIntRoundTrip(j);
  }

  function SkipSpace(s: string): (t: string)
    ensures |t| <= |s| && t == s[|s| - |t|..]
    ensures |t| > 0 ==> !IsSpace(t[0])
    decreases |s|
  {
    if |s| > 0 && IsSpace(s[0]) then SkipSpace(s[1..]) else s
  }

  /** The longest prefix of `s` made of digits. */
  function LeadingDigits(s: string): (d: string)
    ensures d <= s && AllDigits(d)
    ensures |d| < |s| ==> !IsDigit(s[|d|])
    decreases |s|
  {
    if |s| > 0 && IsDigit(s[0]) then [s[0]] + LeadingDigits(s[1..]) else []
  }

  /**
    sscanf(s, "%d", &v): skips white space, takes an optional sign and the
    longest run of digits. None means no conversion happened, in which case
    the caller's variable keeps its previous value.
  */
  function ScanInt(s: string): Option<int> {
    var t := SkipSpace(s);
    var negative := |t| > 0 && t[0] == '-';
    var u := if |t| > 0 && (t[0] == '-' || t[0] == '+') then t[1..] else t;
    var d := LeadingDigits(u);
    if |d| == 0 then None
    else if negative then Some(-(DigitsValue(d) as int))
    else Some(DigitsValue(d) as int)
  }

  lemma LeadingDigitsOfDigits(s: string)
    requires AllDigits(s)
    ensures LeadingDigits(s) == s
  {
    if |s| > 0 {
      LeadingDigitsOfDigits(s[1..]);
    }
  }

  /** A non-empty digit string reads as its value. */
  lemma {:induction false} ScanDigitString(d: string)
    requires |d| > 0 && AllDigits(d)
    ensures ScanInt(d) == Some(DigitsValue(d) as int)
  {
    assert !IsSpace(d[0]) && d[0] != '-' && d[0] != '+';
    assert SkipSpace(d) == d;
    LeadingDigitsOfDigits(d);
  }

  /** A minus sign followed by a non-empty digit string reads as the negated value. */
  lemma {:induction false} ScanNegatedDigitString(d: string)
    requires |d| > 0 && AllDigits(d)
    ensures ScanInt("-" + d) == Some(-(DigitsValue(d) as int))
  {
    var s := "-" + d;
    assert !IsSpace(s[0]);
    assert SkipSpace(s) == s;
    assert s[1..] == d;
    LeadingDigitsOfDigits(d);
  }

  /** What "%d" writes, "%d" reads back. */
  lemma {:induction false} ScanIntRoundTrip(i: int)
    ensures ScanInt(IntToString(i)) == Some(i)
  {
    var n: nat := if i < 0 then -i else i;
    NatToStringRoundTrip(n);
    NatToStringShape(n);
    if i < 0 {
      ScanNegatedDigitString(NatToString(n));
    } else {
      ScanDigitString(NatToString(n));
    }
  }
}
