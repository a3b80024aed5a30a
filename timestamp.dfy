/** format_timestamp of audio-scan.py: seconds rendered as "mm:ss". */
module Timestamp {
  import opened Wrappers
  import opened Numerals

  /** int(seconds // 60): Python's floor division of a float, then int(). */
  function Minutes(seconds: real): int
  {
    (seconds / 60.0).Floor
  }

  /** int(seconds % 60): Python's float modulo lies in [0, 60), so int() truncates it downwards. */
  function Seconds(seconds: real): int
  {
    (seconds - 60.0 * Minutes(seconds) as real).Floor
  }

  function FormatTimestamp(seconds: real): string
  {
    Pad2(Minutes(seconds)) + ":" + Pad2(Seconds(seconds))
  }

  /** The two printed fields split whole seconds into minutes and a remainder below one minute. */
  lemma FieldsSplitWholeSeconds(seconds: real)
    ensures 0 <= Seconds(seconds) < 60
    ensures Minutes(seconds) * 60 + Seconds(seconds) == seconds.Floor
    ensures seconds >= 0.0 ==> Minutes(seconds) >= 0
  {
    var m := Minutes(seconds);
    var r := seconds - 60.0 * m as real;
    assert m as real <= seconds / 60.0 < m as real + 1.0;
    assert 0.0 <= r < 60.0;
    assert seconds == (m * 60) as real + r;
  }

  /** Index of the first ':' at or after `i`, or |t| when there is none. */
  function ColonFrom(t: string, i: nat): (k: nat)
    requires i <= |t|
    ensures i <= k <= |t|
    ensures k < |t| ==> t[k] == ':'
    ensures forall j :: i <= j < k ==> t[j] != ':'
    decreases |t| - i
  {
    if i == |t| || t[i] == ':' then i else ColonFrom(t, i + 1)
  }

  predicate AllDecimal(s: string)
  {
    forall i :: 0 <= i < |s| ==> IsDecimalDigit(s[i])
  }

  /** Reads back "mm:ss" with unsigned decimal fields (the reader of the format's non-negative range). */
  function ParseTimestamp(t: string): Option<(nat, nat)>
  {
    var k := ColonFrom(t, 0);
    if k == |t| then None
    else
      var mm, ss := t[..k], t[k + 1..];
      if mm == [] || ss == [] || !AllDecimal(mm) || !AllDecimal(ss) then None
      else Some((ParseDigits(mm, 10), ParseDigits(ss, 10)))
  }

  lemma Pad2ReadsBack(n: nat)
    ensures |Pad2(n)| >= 2 && AllDecimal(Pad2(n))
    ensures ParseDigits(Pad2(n), 10) == n
    ensures n < 100 ==> |Pad2(n)| == 2
  {
    var d := Digits(n, 10);
    DigitsAreDecimal(n);
    DigitsRoundTrip(n, 10);
    ParseLeadingZeros(|Pad2(n)| - |d|, d, 10);
    if n < 100 {
      DigitsShort(n);
    }
  }

  lemma DigitsShort(n: nat)
    requires n < 100
    ensures |Digits(n, 10)| <= 2
  {
  }

  /** Two non-empty decimal fields joined by ':' read back as their values. */
  lemma JoinedFieldsReadBack(a: string, b: string)
    requires a != [] && b != [] && AllDecimal(a) && AllDecimal(b)
    ensures ParseTimestamp(a + ":" + b) == Some((ParseDigits(a, 10), ParseDigits(b, 10)))
  {
    var t := a + ":" + b;
    assert forall j :: 0 <= j < |a| ==> t[j] == a[j] && t[j] != ':';
    assert t[|a|] == ':';
    var k := ColonFrom(t, 0);
    assert k == |a|;
    assert t[..k] == a;
    assert t[k + 1..] == b;
  }

  /** For non-negative input the text reads back as the two fields, and below 100 minutes it is
      exactly "mm:ss". */
  lemma FormatReadsBack(seconds: real)
    requires seconds >= 0.0
    ensures ParseTimestamp(FormatTimestamp(seconds)) == Some((Minutes(seconds), Seconds(seconds)))
    ensures Minutes(seconds) < 100 ==> |FormatTimestamp(seconds)| == 5 && FormatTimestamp(seconds)[2] == ':'
  {
    FieldsSplitWholeSeconds(seconds);
    var m, s := Minutes(seconds), Seconds(seconds);
    Pad2ReadsBack(m);
    Pad2ReadsBack(s);
    JoinedFieldsReadBack(Pad2(m), Pad2(s));
  }
}
