/** Decimal rendering of integers as JavaScript's `Number.prototype.toString`
    produces it for integral values, `String.prototype.padStart`, and a
    reference parser used to state what the rendered text means. */
module DecimalText {

  predicate IsDigit(c: char)
  {
    '0' <= c <= '9'
  }

  /** Every character is a decimal digit, checked from the right as
      `ParseDecimal` reads them. */
  predicate AllDigits(s: string)
  {
    s == [] || (AllDigits(s[..|s| - 1]) && IsDigit(s[|s| - 1]))
  }

  predicate AllChar(s: string, c: char)
  {
    forall i :: 0 <= i < |s| ==> s[i] == c
  }

  function DigitValue(c: char): (d: nat)
    requires IsDigit(c)
    ensures d < 10
  {
    c as int - '0' as int
  }

  function DigitChar(d: nat): (c: char)
    requires d < 10
    ensures IsDigit(c) && DigitValue(c) == d
  {
    ('0' as int + d) as char
  }

  /** The value of a string of decimal digits, most significant first; the
      empty string reads as 0. This is the reference the renderers are
      checked against. */
  function ParseDecimal(s: string): nat
    requires AllDigits(s)
  {
    if s == [] then 0
    else ParseDecimal(s[..|s| - 1]) * 10 + DigitValue(s[|s| - 1])
  }

  /** Canonical decimal text of a natural number: no sign, no leading zero. */
  function NatToString(n: nat): (s: string)
    ensures AllDigits(s) && ParseDecimal(s) == n
    ensures 1 <= |s| && (|s| > 1 ==> s[0] != '0')
    ensures n < 10 ==> |s| == 1
    ensures 10 <= n < 100 ==> |s| == 2
    decreases n
  {
    if n < 10 then [DigitChar(n)]
    else
      var prefix := NatToString(n / 10);
      var s := prefix + [DigitChar(n % 10)];
      assert s[..|s| - 1] == prefix;
      s
  }

  /** `n.toString()` for an integral `n`: a minus sign followed by the digits
      of the magnitude when negative. */
  function IntToString(n: int): (s: string)
    ensures n >= 0 ==> AllDigits(s) && ParseDecimal(s) == n
    ensures n >= 0 ==> 1 <= |s| && (|s| > 1 ==> s[0] != '0')
    ensures 0 <= n < 100 ==> 1 <= |s| <= 2
    ensures n < 0 ==> |s| >= 2 && s[0] == '-' && AllDigits(s[1..]) && ParseDecimal(s[1..]) == -n
    ensures n < 0 ==> (|s| > 2 ==> s[1] != '0')
  {
    if n < 0 then
      var digits := NatToString(-n);
      var s := "-" + digits;
      assert s[1..] == digits;
      s
    else NatToString(n)
  }

  function Repeat(c: char, n: nat): (s: string)
    ensures |s| == n && AllChar(s, c)
  {
    if n == 0 then [] else [c] + Repeat(c, n - 1)
  }

  /** `s.padStart(width, fill)` with a one-character fill string. */
  function PadStart(s: string, width: nat, fill: char): (r: string)
    ensures |r| == if |s| >= width then |s| else width
    ensures r[|r| - |s|..] == s
    ensures AllChar(r[..|r| - |s|], fill)
  {
    if |s| >= width then s else Repeat(fill, width - |s|) + s
  }

  lemma {:induction false} ParseZeros(z: string)
    requires AllChar(z, '0')
    ensures AllDigits(z) && ParseDecimal(z) == 0
  {
    if z != [] {
      ParseZeros(z[..|z| - 1]);
    }
  }

  /** Leading zeros do not change the value read back. */
  lemma {:induction false} ParseIgnoresLeadingZeros(z: string, s: string)
    requires AllChar(z, '0') && AllDigits(s)
    ensures AllDigits(z + s) && ParseDecimal(z + s) == ParseDecimal(s)
    decreases |s|
  {
    if s == [] {
      assert z + s == z;
      ParseZeros(z);
    } else {
      var t := z + s;
      assert t[..|t| - 1] == z + s[..|s| - 1];
      ParseIgnoresLeadingZeros(z, s[..|s| - 1]);
    }
  }

  /** Zero-padding a number's digits keeps them digits and keeps their value. */
  lemma PadStartKeepsValue(s: string, width: nat)
    requires AllDigits(s)
    ensures var r := PadStart(s, width, '0');
      AllDigits(r) && ParseDecimal(r) == ParseDecimal(s)
  {
    var r := PadStart(s, width, '0');
    assert r == r[..|r| - |s|] + s;
    ParseIgnoresLeadingZeros(r[..|r| - |s|], s);
  }

  function Pow10(k: nat): (p: nat)
    ensures p >= 1
  {
    if k == 0 then 1 else 10 * Pow10(k - 1)
  }

  lemma {:induction false} Pow10Monotone(i: nat, j: nat)
    requires i <= j
    ensures Pow10(i) <= Pow10(j)
    decreases j
  {
    if i < j {
      Pow10Monotone(i, j - 1);
    }
  }

  /** `k` digits denote less than 10^k. */
  lemma {:induction false} DigitsBelowPow10(s: string)
    requires AllDigits(s)
    ensures ParseDecimal(s) < Pow10(|s|)
    decreases |s|
  {
    if s != [] {
      DigitsBelowPow10(s[..|s| - 1]);
    }
  }

  /** `k` digits that do not start with a zero denote at least 10^(k-1). */
  lemma {:induction false} LeadingDigitBound(s: string)
    requires AllDigits(s) && |s| >= 1 && s[0] != '0'
    ensures ParseDecimal(s) >= Pow10(|s| - 1)
    decreases |s|
  {
    if |s| > 1 {
      var prefix := s[..|s| - 1];
      assert prefix[0] == s[0];
      LeadingDigitBound(prefix);
    }
  }

  /** Digit strings of one length are told apart by their values. */
  lemma {:induction false} SameLengthSameValue(a: string, b: string)
    requires AllDigits(a) && AllDigits(b) && |a| == |b|
    requires ParseDecimal(a) == ParseDecimal(b)
    ensures a == b
    decreases |a|
  {
    if a != [] {
      var n := |a| - 1;
      SameLengthSameValue(a[..n], b[..n]);
      assert a == a[..n] + [a[n]] && b == b[..n] + [b[n]];
    }
  }
}
