/** Bytes, little-endian words and the signed 16-bit PCM that the decoder writes. */
module Bytes {
  import opened Wrappers

  newtype byte = x: int | 0 <= x < 256

  /** The unsigned value of eight bytes stored least significant first. */
  function UInt64LE(b: seq<byte>): (v: nat)
    requires |b| == 8
    ensures v < 0x1_0000_0000_0000_0000
  {
    b[0] as nat + 0x100 * b[1] as nat + 0x1_0000 * b[2] as nat + 0x100_0000 * b[3] as nat
    + 0x1_0000_0000 * b[4] as nat + 0x100_0000_0000 * b[5] as nat
    + 0x1_0000_0000_0000 * b[6] as nat + 0x100_0000_0000_0000 * b[7] as nat
  }

  /** Two's complement reading of an unsigned value below 2 * half. */
  function Signed(u: nat, half: nat): int
  {
    if u >= half then u - 2 * half else u
  }

  /** np.int16 of a low and a high byte. */
  function Int16LE(lo: byte, hi: byte): (v: int)
    ensures -32768 <= v < 32768
  {
    Signed(lo as nat + 256 * hi as nat, 32768)
  }

  /** np.frombuffer(data, dtype=np.int16).astype(np.float32) / 32768.0. An odd byte count makes
      np.frombuffer raise ValueError, which is None here. */
  function PcmSamples(data: seq<byte>): (r: Option<seq<real>>)
    ensures r.Some? <==> |data| % 2 == 0
    ensures r.Some? ==> |r.value| == |data| / 2
    ensures r.Some? ==> forall i :: 0 <= i < |r.value| ==>
      r.value[i] == Int16LE(data[2 * i], data[2 * i + 1]) as real / 32768.0
  {
    if |data| % 2 != 0 then None
    else Some(seq(|data| / 2, i requires 0 <= i < |data| / 2 => Int16LE(data[2 * i], data[2 * i + 1]) as real / 32768.0))
  }

  /** Every normalised sample lies in [-1, 1). */
  lemma SamplesInRange(data: seq<byte>, i: nat)
    requires PcmSamples(data).Some? && i < |PcmSamples(data).value|
    ensures -1.0 <= PcmSamples(data).value[i] < 1.0
  {
    var v := Int16LE(data[2 * i], data[2 * i + 1]);
    assert PcmSamples(data).value[i] == v as real / 32768.0;
  }

  /** The s16le bytes of a signed 16-bit value, as the decoder writes them. */
  function EncodeInt16(v: int): (s: seq<byte>)
    requires -32768 <= v < 32768
    ensures |s| == 2
  {
    var u := if v < 0 then v + 65536 else v;
    [(u % 256) as byte, (u / 256) as byte]
  }

  function EncodePcm(vs: seq<int>): (s: seq<byte>)
    requires forall i :: 0 <= i < |vs| ==> -32768 <= vs[i] < 32768
    ensures |s| == 2 * |vs|
  {
    if vs == [] then [] else EncodeInt16(vs[0]) + EncodePcm(vs[1..])
  }

  lemma {:induction false} EncodePcmAt(vs: seq<int>, i: nat)
    requires forall j :: 0 <= j < |vs| ==> -32768 <= vs[j] < 32768
    requires i < |vs|
    ensures EncodePcm(vs)[2 * i] == EncodeInt16(vs[i])[0]
    ensures EncodePcm(vs)[2 * i + 1] == EncodeInt16(vs[i])[1]
  {
    if i > 0 {
      EncodePcmAt(vs[1..], i - 1);
    }
  }

  lemma Int16RoundTrip(v: int)
    requires -32768 <= v < 32768
    ensures Int16LE(EncodeInt16(v)[0], EncodeInt16(v)[1]) == v
  {
    var u := if v < 0 then v + 65536 else v;
    assert (u % 256) + 256 * (u / 256) == u;
  }

  /** Decoding the decoder's output recovers every 16-bit value, scaled by 1/32768. */
  lemma PcmRoundTrip(vs: seq<int>)
    requires forall i :: 0 <= i < |vs| ==> -32768 <= vs[i] < 32768
    ensures PcmSamples(EncodePcm(vs)).Some?
    ensures |PcmSamples(EncodePcm(vs)).value| == |vs|
    ensures forall i :: 0 <= i < |vs| ==> PcmSamples(EncodePcm(vs)).value[i] == vs[i] as real / 32768.0
  {
    var data := EncodePcm(vs);
    forall i | 0 <= i < |vs|
      ensures Int16LE(data[2 * i], data[2 * i + 1]) == vs[i]
    {
      EncodePcmAt(vs, i);
      Int16RoundTrip(vs[i]);
    }
  }
}
