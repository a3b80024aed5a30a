/** calculate_opensubtitles_hash of audio-scan.py: the OpenSubtitles movie hash of a video file. */
module MovieHash {
  import opened Wrappers
  import opened Numerals
  import opened Bytes

  const Modulus: nat := 0x1_0000_0000_0000_0000  // 2^64: `file_hash &= 0xFFFFFFFFFFFFFFFF`
  const HalfModulus: nat := 0x8000_0000_0000_0000
  const WordSize: nat := 8                         // struct.calcsize('<q')
  const ChunkSize: nat := 65536                    // 64 KiB read from each end
  const WordsPerChunk: nat := 8192                 // range(65536 // bytesize)

  /** What the file system says about the path. */
  datatype FileEntry = Missing | NotARegularFile | RegularFile(content: seq<byte>)

  /** Both are FileNotFoundError in the source, with different messages. */
  datatype HashError = VideoFileNotFound | PathIsNotAFile

  /** The unsigned 64-bit word stored little-endian at `off`. */
  function Word(c: seq<byte>, off: nat): (w: nat)
    requires off + WordSize <= |c|
    ensures w < Modulus
  {
    UInt64LE(c[off..off + WordSize])
  }

  /** The sum of the `n` consecutive words starting at `off`. */
  function WordSum(c: seq<byte>, off: nat, n: nat): nat
    requires off + WordSize * n <= |c|
  {
    if n == 0 then 0 else WordSum(c, off, n - 1) + Word(c, off + WordSize * (n - 1))
  }

  /** How many full words one pass reads from `off`: at most 8192, and a trailing partial word
      stops it. */
  function FullWords(c: seq<byte>, off: nat): (n: nat)
    requires off <= |c|
    ensures off + WordSize * n <= |c| && n <= WordsPerChunk
  {
    var avail := (|c| - off) / WordSize;
    if avail < WordsPerChunk then avail else WordsPerChunk
  }

  /** f.seek(max(0, file_size - 65536)). */
  function TailOffset(c: seq<byte>): (t: nat)
    ensures t <= |c|
  {
    if |c| > ChunkSize then |c| - ChunkSize else 0
  }

  /** The hash in closed form: the size plus the full words of the head pass and of the tail pass,
      modulo 2^64. */
  function HashValue(c: seq<byte>): (h: nat)
    ensures h < Modulus
  {
    Mask64(|c| + HeadSum(c) + TailSum(c))
  }

  /** `x & 0xFFFFFFFFFFFFFFFF` on a Python int: the remainder modulo 2^64, also for negative x. */
  function Mask64(x: int): (m: nat)
    ensures m < Modulus
  {
    x % Modulus
  }

  /** The words the first pass reads, from offset 0. */
  function HeadSum(c: seq<byte>): nat
  {
    WordSum(c, 0, FullWords(c, 0))
  }

  /** The words the second pass reads, from TailOffset(c). */
  function TailSum(c: seq<byte>): nat
  {
    WordSum(c, TailOffset(c), FullWords(c, TailOffset(c)))
  }

  /** f.read(n) at position `pos`: fewer bytes at the end of the file. */
  function Read(c: seq<byte>, pos: nat, n: nat): (b: seq<byte>)
    requires pos <= |c|
    ensures |b| <= n && pos + |b| <= |c|
    ensures |b| == n <==> pos + n <= |c|
  {
    if pos + n <= |c| then c[pos..pos + n] else c[pos..]
  }

  /** Adding the signed reading of a word and masking to 64 bits equals unsigned addition mod 2^64. */
  lemma SignedAddMasks(h: int, w: nat)
    requires w < Modulus
    ensures (h + Signed(w, HalfModulus)) % Modulus == (h + w) % Modulus
  {
    if w >= HalfModulus {
      assert h + Signed(w, HalfModulus) == (h + w) - Modulus;
    }
  }

  lemma ModAddLeft(a: int, b: int)
    ensures Mask64(Mask64(a) + b) == Mask64(a + b)
  {
    var q := a / Modulus;
    assert a == q * Modulus + a % Modulus;
    assert a % Modulus + b == (a + b) - q * Modulus;
  }

  /** The value one read pass leaves when it starts from `h0` at offset `start`: unchanged if
      not even one full word is there, otherwise masked after adding the words. */
  function PassValue(c: seq<byte>, start: nat, h0: int): int
    requires start <= |c|
  {
    if FullWords(c, start) == 0 then h0 else Mask64(h0 + WordSum(c, start, FullWords(c, start)))
  }

  /** One `for _ in range(65536 // bytesize)` loop: read up to 8192 words from `start`, stop at a
      short read, add each signed word and mask to 64 bits. */
  method ReadPass(c: seq<byte>, start: nat, h0: int) returns (h: int)
    requires start <= |c|
    ensures h == PassValue(c, start, h0)
  {
    var pos := start;
    h := h0;
    var n := 0;
    while n < WordsPerChunk
      invariant n <= FullWords(c, start) && pos == start + WordSize * n
      invariant h == if n == 0 then h0 else Mask64(h0 + WordSum(c, start, n))
    {
      var buffer := Read(c, pos, WordSize);
      pos := pos + |buffer|;
      if |buffer| < WordSize {
        FullWordsStop(c, start, n);
        break;
      }
      assert buffer == c[start + WordSize * n..start + WordSize * n + WordSize];
      PassStep(c, start, h0, n, h);
      h := (h + Signed(UInt64LE(buffer), HalfModulus)) % Modulus;  // file_hash &= 0xFFFFFFFFFFFFFFFF
      n := n + 1;
    }
    if n == WordsPerChunk {
      FullWordsStop(c, start, n);
    }
  }

  /** A pass that stops after n words, on a short read or after the last word of the chunk, has
      read all the full words there are. */
  lemma FullWordsStop(c: seq<byte>, start: nat, n: nat)
    requires start + WordSize * n <= |c| && n <= WordsPerChunk
    requires n == WordsPerChunk || start + WordSize * n + WordSize > |c|
    ensures FullWords(c, start) == n
  {
  }

  lemma PassStep(c: seq<byte>, start: nat, h0: int, n: nat, h: int)
    requires start + WordSize * (n + 1) <= |c|
    requires h == if n == 0 then h0 else Mask64(h0 + WordSum(c, start, n))
    ensures (h + Signed(Word(c, start + WordSize * n), HalfModulus)) % Modulus == Mask64(h0 + WordSum(c, start, n + 1))
  {
    var w := Word(c, start + WordSize * n);
    SignedAddMasks(h, w);
    if n > 0 {
      ModAddLeft(h0 + WordSum(c, start, n), w);
    }
  }

  /** The two passes in sequence give the closed form. */
  lemma TwoPassesGiveHash(c: seq<byte>)
    ensures PassValue(c, TailOffset(c), PassValue(c, 0, |c|)) == HashValue(c)
  {
    var t := TailOffset(c);
    if FullWords(c, 0) == 0 {
      assert |c| < WordSize && t == 0;
    } else {
      ModAddLeft(|c| + HeadSum(c), TailSum(c));
    }
  }

  method CalculateOpenSubtitlesHash(f: FileEntry) returns (r: Result<(string, nat), HashError>)
    ensures f.Missing? ==> r == Err(VideoFileNotFound)
    ensures f.NotARegularFile? ==> r == Err(PathIsNotAFile)
    ensures f.RegularFile? ==> r == Ok((Hex016(HashValue(f.content)), |f.content|))
  {
    if f.Missing? {
      return Err(VideoFileNotFound);
    }
    if f.NotARegularFile? {
      return Err(PathIsNotAFile);
    }
    var c := f.content;
    var fileSize := |c|;
    var fileHash := ReadPass(c, 0, fileSize);              // first 64KB
    fileHash := ReadPass(c, TailOffset(c), fileHash);      // last 64KB, from max(0, size - 65536)
    TwoPassesGiveHash(c);
    return Ok((Hex016(fileHash), fileSize));
  }

  /** A file of fewer than 8 bytes has no full word: its hash is its size. */
  lemma TinyFileHashIsSize(c: seq<byte>)
    requires |c| < WordSize
    ensures HashValue(c) == |c|
  {
    assert FullWords(c, 0) == 0 && TailOffset(c) == 0;
  }

  /** Under 64 KiB both passes start at offset 0 and read the same |c| / 8 full words. */
  lemma SmallFilePassesCoincide(c: seq<byte>)
    requires |c| < ChunkSize
    ensures TailOffset(c) == 0 && FullWords(c, 0) == |c| / WordSize
    ensures HeadSum(c) == TailSum(c) == WordSum(c, 0, |c| / WordSize)
  {
  }

  /** ... so in a file under 64 KiB every full word is counted twice. */
  lemma SmallFileCountsWordsTwice(c: seq<byte>)
    requires |c| < ChunkSize
    ensures HashValue(c) == Mask64(|c| + 2 * HeadSum(c))
  {
    assert HeadSum(c) == TailSum(c) by { assert TailOffset(c) == 0; }
  }

  /** From 64 KiB on, each pass reads exactly 8192 words: the first and the last 64 KiB. */
  lemma LargeFileReadsBothEnds(c: seq<byte>)
    requires |c| >= ChunkSize
    ensures TailOffset(c) == |c| - ChunkSize
    ensures HeadSum(c) == WordSum(c, 0, WordsPerChunk)
    ensures TailSum(c) == WordSum(c, |c| - ChunkSize, WordsPerChunk)
  {
    assert FullWords(c, 0) == WordsPerChunk;
    assert FullWords(c, |c| - ChunkSize) == WordsPerChunk;
  }

  /** Words inside a common prefix have the same sum. */
  lemma {:induction false} WordSumOfPrefix(c: seq<byte>, d: seq<byte>, off: nat, n: nat)
    requires off + WordSize * n <= |c| && c <= d
    ensures WordSum(c, off, n) == WordSum(d, off, n)
    decreases n
  {
    if n > 0 {
      WordSumOfPrefix(c, d, off, n - 1);
      var o := off + WordSize * (n - 1);
      assert c[o..o + WordSize] == d[o..o + WordSize];
    }
  }

  lemma PaddedHeadSum(c: seq<byte>, t: seq<byte>)
    requires |c| % WordSize == 0 && |t| < WordSize && |c| + |t| < ChunkSize
    ensures HeadSum(c + t) == HeadSum(c)
  {
    var n := |c| / WordSize;
    assert (|c| + |t|) / WordSize == n;
    SmallFilePassesCoincide(c);
    SmallFilePassesCoincide(c + t);
    WordSumOfPrefix(c, c + t, 0, n);
  }

  /** A trailing partial word is ignored: after the full words of a small file, the bytes of an
      incomplete word do not change the hash, only their count does (through the size). */
  lemma TrailingPartialWordIgnored(c: seq<byte>, t1: seq<byte>, t2: seq<byte>)
    requires |c| % WordSize == 0 && |t1| == |t2| < WordSize && |c| + |t1| < ChunkSize
    ensures HashValue(c + t1) == HashValue(c + t2) == Mask64(|c| + |t1| + 2 * HeadSum(c))
  {
    PaddedHeadSum(c, t1);
    PaddedHeadSum(c, t2);
    SmallFileCountsWordsTwice(c + t1);
    SmallFileCountsWordsTwice(c + t2);
  }

  lemma {:induction false} HexDigitsFit(n: nat, k: nat, p: nat)
    requires k >= 1 && p == Pow16(k) && n < p
    ensures |Digits(n, 16)| <= k
    decreases k
  {
    if n >= 16 {
      assert k > 1;
      HexDigitsFit(n / 16, k - 1, Pow16(k - 1));
    }
  }

  function Pow16(k: nat): (p: nat)
    ensures p >= 1
  {
    if k == 0 then 1 else 16 * Pow16(k - 1)
  }

  lemma Pow16Is2To64()
    ensures Pow16(16) == Modulus
  {
    assert Pow16(4) == 65536;
    assert Pow16(8) == 65536 * 65536;
    assert Pow16(12) == 65536 * 65536 * 65536;
  }

  /** The hash text is exactly 16 lowercase hexadecimal digits and reads back as the hash. */
  lemma HashTextReadsBack(c: seq<byte>)
    ensures |Hex016(HashValue(c))| == 16
    ensures forall i :: 0 <= i < 16 ==> IsLowerHexDigit(Hex016(HashValue(c))[i])
    ensures ParseDigits(Hex016(HashValue(c)), 16) == HashValue(c)
  {
    var h := HashValue(c);
    var d := Digits(h, 16);
    Pow16Is2To64();
    HexDigitsFit(h, 16, Modulus);
    DigitsRoundTrip(h, 16);
    ParseLeadingZeros(16 - |d|, d, 16);
  }
}
