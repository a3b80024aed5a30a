/** Decimal and hexadecimal numerals, as Python's str(), "%02d" and "%016x" print them. */
module Numerals {

  function DigitChar(d: nat): (c: char)
    requires d < 16
    ensures IsLowerHexDigit(c)
  {
    if d < 10 then ('0' as int + d) as char else ('a' as int + d - 10) as char
  }

  predicate IsDecimalDigit(c: char) { '0' <= c <= '9' }

  predicate IsLowerHexDigit(c: char) { '0' <= c <= '9' || 'a' <= c <= 'f' }

  function DigitValue(c: char): (d: nat)
    requires IsLowerHexDigit(c)
    ensures d < 16
  {
    if c <= '9' then c as int - '0' as int else c as int - 'a' as int + 10
  }

  lemma DigitRoundTrip(d: nat)
    requires d < 16
    ensures DigitValue(DigitChar(d)) == d
  {
  }

  /** The digits of `n` in base `b`, most significant first, without leading zeros ("0" for zero). */
  function Digits(n: nat, b: nat): (s: string)
    requires 2 <= b <= 16
    ensures |s| >= 1
    ensures forall i :: 0 <= i < |s| ==> IsLowerHexDigit(s[i])
    decreases n
  {
    if n < b then [DigitChar(n)]
    else
      DivisionShrinks(n, b);
      Digits(n / b, b) + [DigitChar(n % b)]
  }

  lemma DivisionShrinks(n: nat, b: nat)
    requires 2 <= b <= n
    ensures n / b < n && n % b < b
  {
  }

  /** Decimal digits are decimal. */
  lemma {:induction false} DigitsAreDecimal(n: nat)
    ensures forall j :: 0 <= j < |Digits(n, 10)| ==> IsDecimalDigit(Digits(n, 10)[j])
    decreases n
  {
    if n >= 10 {
      DivisionShrinks(n, 10);
      DigitsAreDecimal(n / 10);
    }
  }

  /** Reads a numeral in base `b`, most significant digit first. */
  function ParseDigits(s: string, b: nat): nat
    requires 2 <= b <= 16
    requires forall i :: 0 <= i < |s| ==> IsLowerHexDigit(s[i])
  {
    if s == [] then 0 else ParseDigits(s[..|s| - 1], b) * b + DigitValue(s[|s| - 1])
  }

  lemma {:induction false} DigitsRoundTrip(n: nat, b: nat)
    requires 2 <= b <= 16
    ensures ParseDigits(Digits(n, b), b) == n
    decreases n
  {
    if n < b {
      DigitRoundTrip(n);
      assert Digits(n, b)[..0] == [];
    } else {
      DigitsRoundTrip(n / b, b);
      ParseAppend(Digits(n / b, b), n % b, b);
      MulDivMod(n, b);
    }
  }

  lemma ParseAppend(t: string, d: nat, b: nat)
    requires 2 <= b <= 16 && d < b
    requires forall i :: 0 <= i < |t| ==> IsLowerHexDigit(t[i])
    ensures forall i :: 0 <= i < |t + [DigitChar(d)]| ==> IsLowerHexDigit((t + [DigitChar(d)])[i])
    ensures ParseDigits(t + [DigitChar(d)], b) == ParseDigits(t, b) * b + d
  {
    var s := t + [DigitChar(d)];
    assert s[..|s| - 1] == t;
    DigitRoundTrip(d);
  }

  lemma MulDivMod(n: nat, b: nat)
    requires 2 <= b
    ensures (n / b) * b + n % b == n
  {
  }

  /** Leading zeros never change the value of a numeral. */
  lemma {:induction false} ParseLeadingZeros(k: nat, s: string, b: nat)
    requires 2 <= b <= 16
    requires forall i :: 0 <= i < |s| ==> IsLowerHexDigit(s[i])
    ensures forall i :: 0 <= i < |Zeros(k) + s| ==> IsLowerHexDigit((Zeros(k) + s)[i])
    ensures ParseDigits(Zeros(k) + s, b) == ParseDigits(s, b)
    decreases |s|
  {
    var z := Zeros(k) + s;
    if s == [] {
      assert z == Zeros(k);
      ParseZeros(k, b);
    } else {
      assert z[..|z| - 1] == Zeros(k) + s[..|s| - 1];
      ParseLeadingZeros(k, s[..|s| - 1], b);
    }
  }

  lemma {:induction false} ParseZeros(k: nat, b: nat)
    requires 2 <= b <= 16
    ensures ParseDigits(Zeros(k), b) == 0
    decreases k
  {
    if k > 0 {
      assert Zeros(k)[..k - 1] == Zeros(k - 1);
      ParseZeros(k - 1, b);
    }
  }

  function Zeros(k: nat): (z: string)
    ensures |z| == k && forall i :: 0 <= i < k ==> z[i] == '0'
  {
    seq(k, _ => '0')
  }

  /** Python's zero padding: `s` preceded by as many '0' as make it `width` long. */
  function ZeroPad(s: string, width: nat): (r: string)
    ensures |r| == if |s| >= width then |s| else width
    ensures r == Zeros(|r| - |s|) + s
  {
    if |s| >= width then (assert Zeros(0) + s == s; s) else Zeros(width - |s|) + s
  }

  /** str(n) for a Python int. */
  function IntToString(n: int): string
  {
    if n < 0 then "-" + Digits(-n, 10) else Digits(n, 10)
  }

  /** "%02d" % n (and f"{n:02d}"): at least two characters, zero padded after the sign. */
  function Pad2(n: int): string
  {
    if n < 0 then "-" + ZeroPad(Digits(-n, 10), 1) else ZeroPad(Digits(n, 10), 2)
  }

  /** "%016x" % n for a non-negative n. */
  function Hex016(n: nat): string
  {
    ZeroPad(Digits(n, 16), 16)
  }
}
