/** `bytes.decode('utf-8')` with Python's strict error handling, and its inverse `str.encode`. */
module Utf8 {
  import opened Wrappers
  import opened Bytes

  /** A Unicode scalar value: a code point that is not a surrogate. */
  predicate IsScalar(cp: int)
  {
    0 <= cp < 0xD800 || 0xE000 <= cp < 0x11_0000
  }

  predicate IsContinuation(b: byte)
  {
    0x80 <= b <= 0xBF
  }

  /** The length and code point of the well-formed sequence `b` starts with, if any. The allowed
      ranges of the second byte rule out overlong forms, surrogates and values above U+10FFFF, as
      the strict decoder does. */
  function Leading(b: seq<byte>): (r: Option<(nat, int)>)
    requires b != []
    ensures r.Some? ==> 1 <= r.value.0 <= 4 && r.value.0 <= |b| && IsScalar(r.value.1)
  {
    var b0 := b[0] as int;
    if b0 < 0x80 then Some((1, b0))
    else if 0xC2 <= b0 <= 0xDF then
      if |b| >= 2 && IsContinuation(b[1])
      then Some((2, (b0 - 0xC0) * 0x40 + (b[1] as int - 0x80)))
      else None
    else if 0xE0 <= b0 <= 0xEF then
      var lo := if b0 == 0xE0 then 0xA0 else 0x80;
      var hi := if b0 == 0xED then 0x9F else 0xBF;
      if |b| >= 3 && lo <= b[1] as int <= hi && IsContinuation(b[2])
      then Some((3, (b0 - 0xE0) * 0x1000 + (b[1] as int - 0x80) * 0x40 + (b[2] as int - 0x80)))
      else None
    else if 0xF0 <= b0 <= 0xF4 then
      var lo := if b0 == 0xF0 then 0x90 else 0x80;
      var hi := if b0 == 0xF4 then 0x8F else 0xBF;
      if |b| >= 4 && lo <= b[1] as int <= hi && IsContinuation(b[2]) && IsContinuation(b[3])
      then Some((4, (b0 - 0xF0) * 0x4_0000 + (b[1] as int - 0x80) * 0x1000
                    + (b[2] as int - 0x80) * 0x40 + (b[3] as int - 0x80)))
      else None
    else None
  }

  /** The decoded text, or None where Python raises UnicodeDecodeError. */
  function Decode(b: seq<byte>): Option<string>
    decreases |b|
  {
    if b == [] then Some([])
    else match Leading(b)
      case None => None
      case Some(x) =>
        match Decode(b[x.0..])
        case None => None
        case Some(rest) => Some([x.1 as char] + rest)
  }

  /** The UTF-8 form of one character. */
  function EncodeChar(c: char): (b: seq<byte>)
    ensures 1 <= |b| <= 4
  {
    var cp := c as int;
    if cp < 0x80 then [cp as byte]
    else if cp < 0x800 then [(0xC0 + cp / 0x40) as byte, (0x80 + cp % 0x40) as byte]
    else if cp < 0x1_0000 then
      [(0xE0 + cp / 0x1000) as byte, (0x80 + cp / 0x40 % 0x40) as byte, (0x80 + cp % 0x40) as byte]
    else
      [(0xF0 + cp / 0x4_0000) as byte, (0x80 + cp / 0x1000 % 0x40) as byte,
       (0x80 + cp / 0x40 % 0x40) as byte, (0x80 + cp % 0x40) as byte]
  }

  /** `s.encode('utf-8')`. */
  function Encode(s: string): seq<byte>
  {
    if s == [] then [] else EncodeChar(s[0]) + Encode(s[1..])
  }

  /** cp in base 64: its last digit, the one before it, and what is above them. */
  lemma SixBitDigits(cp: nat)
    ensures cp == cp / 0x40 * 0x40 + cp % 0x40
    ensures cp == cp / 0x1000 * 0x1000 + cp / 0x40 % 0x40 * 0x40 + cp % 0x40
    ensures cp == cp / 0x4_0000 * 0x4_0000 + cp / 0x1000 % 0x40 * 0x1000 + cp / 0x40 % 0x40 * 0x40 + cp % 0x40
  {
    var q := cp / 0x40;
    assert q == q / 0x40 * 0x40 + q % 0x40;
    assert q / 0x40 == cp / 0x1000;
    var r := cp / 0x1000;
    assert r == r / 0x40 * 0x40 + r % 0x40;
    assert r / 0x40 == cp / 0x4_0000;
  }

  lemma LeadingOfTwo(c: char, rest: seq<byte>)
    requires 0x80 <= c as int < 0x800
    ensures Leading(EncodeChar(c) + rest) == Some((2, c as int))
  {
    var cp := c as int;
    SixBitDigits(cp);
    var b := EncodeChar(c) + rest;
    assert b[0] as int == 0xC0 + cp / 0x40 && b[1] as int == 0x80 + cp % 0x40;
  }

  lemma LeadingOfThree(c: char, rest: seq<byte>)
    requires 0x800 <= c as int < 0x1_0000
    ensures Leading(EncodeChar(c) + rest) == Some((3, c as int))
  {
    var cp := c as int;
    SixBitDigits(cp);
    var b := EncodeChar(c) + rest;
    assert b[0] as int == 0xE0 + cp / 0x1000;
    assert b[1] as int == 0x80 + cp / 0x40 % 0x40 && b[2] as int == 0x80 + cp % 0x40;
  }

  lemma LeadingOfFour(c: char, rest: seq<byte>)
    requires 0x1_0000 <= c as int
    ensures Leading(EncodeChar(c) + rest) == Some((4, c as int))
  {
    var cp := c as int;
    SixBitDigits(cp);
    var b := EncodeChar(c) + rest;
    assert b[0] as int == 0xF0 + cp / 0x4_0000;
    assert b[1] as int == 0x80 + cp / 0x1000 % 0x40;
    assert b[2] as int == 0x80 + cp / 0x40 % 0x40 && b[3] as int == 0x80 + cp % 0x40;
  }

  /** The decoder reads exactly one character back from the front of its encoding. */
  lemma LeadingOfEncoding(c: char, rest: seq<byte>)
    ensures Leading(EncodeChar(c) + rest) == Some((|EncodeChar(c)|, c as int))
  {
    var cp := c as int;
    if cp < 0x80 {
    } else if cp < 0x800 {
      LeadingOfTwo(c, rest);
    } else if cp < 0x1_0000 {
      LeadingOfThree(c, rest);
    } else {
      LeadingOfFour(c, rest);
    }
  }

  /** Decoding undoes encoding, for every string. */
  lemma {:induction false} DecodeEncode(s: string)
    ensures Decode(Encode(s)) == Some(s)
  {
    if s != [] {
      var e := EncodeChar(s[0]);
      LeadingOfEncoding(s[0], Encode(s[1..]));
      assert (e + Encode(s[1..]))[|e|..] == Encode(s[1..]);
      DecodeEncode(s[1..]);
      assert [s[0]] + s[1..] == s;
    }
  }

  /** A well-formed leading sequence is the encoding of the character it decodes to: the decoder
      accepts no second spelling of a character. */
  lemma LeadingIsEncoding(b: seq<byte>)
    requires b != [] && Leading(b).Some?
    ensures b[..Leading(b).value.0] == EncodeChar(Leading(b).value.1 as char)
  {
    var n := Leading(b).value.0;
    if n == 2 {
      TwoByteSpelling(b);
    } else if n == 3 {
      ThreeByteSpelling(b);
    } else if n == 4 {
      FourByteSpelling(b);
    }
  }

  lemma TwoByteSpelling(b: seq<byte>)
    requires b != [] && Leading(b).Some? && Leading(b).value.0 == 2
    ensures b[..2] == EncodeChar(Leading(b).value.1 as char)
  {
    var cp := Leading(b).value.1;
    assert cp == (b[0] as int - 0xC0) * 0x40 + (b[1] as int - 0x80);
    assert 0x80 <= cp < 0x800;
    assert cp / 0x40 == b[0] as int - 0xC0 && cp % 0x40 == b[1] as int - 0x80;
  }

  lemma ThreeByteSpelling(b: seq<byte>)
    requires b != [] && Leading(b).Some? && Leading(b).value.0 == 3
    ensures b[..3] == EncodeChar(Leading(b).value.1 as char)
  {
    var cp := Leading(b).value.1;
    var x, y, z := b[0] as int - 0xE0, b[1] as int - 0x80, b[2] as int - 0x80;
    assert cp == x * 0x1000 + y * 0x40 + z;
    assert 0x800 <= cp < 0x1_0000;
    assert cp / 0x40 == x * 0x40 + y;
    assert cp / 0x1000 == x && cp / 0x40 % 0x40 == y && cp % 0x40 == z;
  }

  lemma FourByteSpelling(b: seq<byte>)
    requires b != [] && Leading(b).Some? && Leading(b).value.0 == 4
    ensures b[..4] == EncodeChar(Leading(b).value.1 as char)
  {
    var cp := Leading(b).value.1;
    var w, x, y, z := b[0] as int - 0xF0, b[1] as int - 0x80, b[2] as int - 0x80, b[3] as int - 0x80;
    assert cp == w * 0x4_0000 + x * 0x1000 + y * 0x40 + z;
    assert 0x1_0000 <= cp;
    assert cp / 0x40 == w * 0x1000 + x * 0x40 + y;
    assert cp / 0x1000 == w * 0x40 + x;
    assert cp / 0x4_0000 == w && cp / 0x1000 % 0x40 == x && cp / 0x40 % 0x40 == y && cp % 0x40 == z;
  }

  /** Encoding undoes decoding: the bytes a successful decode reads are the text's encoding. */
  lemma {:induction false} EncodeDecode(b: seq<byte>)
    requires Decode(b).Some?
    ensures Encode(Decode(b).value) == b
    decreases |b|
  {
    if b != [] {
      var n := Leading(b).value.0;
      var cp := Leading(b).value.1;
      LeadingIsEncoding(b);
      EncodeDecode(b[n..]);
      var s := Decode(b).value;
      assert s == [cp as char] + Decode(b[n..]).value;
      assert s[1..] == Decode(b[n..]).value;
      assert b == b[..n] + b[n..];
    }
  }

  /** ASCII bytes decode to the characters with the same codes. */
  lemma {:induction false} AsciiDecodes(b: seq<byte>)
    requires forall i :: 0 <= i < |b| ==> b[i] < 0x80
    ensures Decode(b).Some? && |Decode(b).value| == |b|
    ensures forall i :: 0 <= i < |b| ==> Decode(b).value[i] as int == b[i] as int
    decreases |b|
  {
    if b != [] {
      AsciiDecodes(b[1..]);
    }
  }
}
