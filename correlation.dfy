/** Chroma features, the 'valid' cross-correlation and the peak-to-time arithmetic of audio-scan.py.
    The feature values and the correlation values are computed by librosa and scipy; here they are
    functions supplied by the caller, and only their ordering is used. */
module Correlation {
  import opened Wrappers
  import opened ScanConfig

  /** A chromagram of shape (12, frames), stored flattened row by row. */
  datatype ChromaMatrix = ChromaMatrix(frames: nat, flat: seq<real>)
  type Chroma = c: ChromaMatrix | |c.flat| == PitchClasses * c.frames witness ChromaMatrix(0, [])

  /** The numeric collaborators: `chroma` stands for extract_audio_features (chroma_cqt followed
      by per-frame normalisation); `correlate(intro, chunk, i)` for the i-th value of the z-scored
      'valid' cross-correlation divided by the intro's flattened length. */
  datatype Features = Features(chroma: seq<real> -> Chroma, correlate: (Chroma, Chroma, nat) -> real)

  /** Length of a 'valid' correlation of flattened inputs of lengths m and n: empty when either
      input is empty, otherwise the difference of the lengths plus one. */
  function ValidLength(m: nat, n: nat): nat
  {
    if m == 0 || n == 0 then 0 else if m <= n then n - m + 1 else m - n + 1
  }

  /** compute_correlation: one value per alignment of the shorter flattened chromagram inside the
      longer one, 12 alignments per frame of difference plus one; nothing for an empty input. */
  function ComputeCorrelation(f: Features, intro: Chroma, chunk: Chroma): (r: seq<real>)
    ensures intro.frames == 0 || chunk.frames == 0 ==> r == []
    ensures 1 <= intro.frames <= chunk.frames ==> |r| == PitchClasses * (chunk.frames - intro.frames) + 1
    ensures 1 <= chunk.frames <= intro.frames ==> |r| == PitchClasses * (intro.frames - chunk.frames) + 1
  {
    seq(ValidLength(|intro.flat|, |chunk.flat|), i requires 0 <= i => f.correlate(intro, chunk, i))
  }

  /** np.argmax: the first index holding the maximum. */
  function ArgMax(s: seq<real>): (i: nat)
    requires |s| > 0
    ensures i < |s|
    ensures forall j :: 0 <= j < |s| ==> s[j] <= s[i]
    ensures forall j :: 0 <= j < i ==> s[j] < s[i]
  {
    if |s| == 1 then 0
    else
      var i := ArgMax(s[..|s| - 1]);
      assert forall j :: 0 <= j < |s| - 1 ==> s[..|s| - 1][j] == s[j];
      if s[|s| - 1] > s[i] then |s| - 1 else i
  }

  /** `max_corr_idx // intro_features.shape[0]`: correlation points run over the 12 pitch classes
      of each frame. */
  function OffsetFrames(index: nat): nat
  {
    index / PitchClasses
  }

  /** `offset_frames * HOP_LENGTH / SAMPLE_RATE`, in seconds. */
  function OffsetSeconds(frames: nat): real
  {
    (frames * HopLength) as real / SampleRate as real
  }

  /** The best alignment in one window: how far into it the intro starts, and its score. */
  datatype Peak = Peak(offset: real, score: real)

  /** The shared step of the coarse search and the refinement: skip a window with fewer frames
      than the intro and an empty correlation, otherwise take the first maximal correlation. */
  function BestAlignment(f: Features, intro: Chroma, chunk: Chroma): (r: Option<Peak>)
    ensures r.Some? <==> 1 <= intro.frames <= chunk.frames
    ensures r.Some? ==> r.value.score in ComputeCorrelation(f, intro, chunk)
    ensures r.Some? ==> forall j :: 0 <= j < |ComputeCorrelation(f, intro, chunk)| ==>
      ComputeCorrelation(f, intro, chunk)[j] <= r.value.score
    ensures r.Some? ==> 0.0 <= r.value.offset <= OffsetSeconds(chunk.frames - intro.frames)
  {
    if chunk.frames < intro.frames then None
    else
      var scores := ComputeCorrelation(f, intro, chunk);
      if |scores| == 0 then None
      else
        var index := ArgMax(scores);
        PeakFrameInRange(intro, chunk, index);
        Some(Peak(OffsetSeconds(OffsetFrames(index)), scores[index]))
  }

  /** An alignment index of the valid correlation names a whole frame offset in [0, chunk frames -
      intro frames], and so an offset in seconds between zero and that many hops. */
  lemma PeakFrameInRange(intro: Chroma, chunk: Chroma, index: nat)
    requires 1 <= intro.frames <= chunk.frames
    requires index < ValidLength(|intro.flat|, |chunk.flat|)
    ensures OffsetFrames(index) <= chunk.frames - intro.frames
    ensures 0.0 <= OffsetSeconds(OffsetFrames(index)) <= OffsetSeconds(chunk.frames - intro.frames)
  {
    var d := chunk.frames - intro.frames;
    assert index < PitchClasses * d + 1;
    assert OffsetFrames(index) * HopLength <= d * HopLength;
  }

  /** The peak is the first maximal alignment: every earlier alignment scores strictly less. */
  lemma PeakIsFirstMaximum(f: Features, intro: Chroma, chunk: Chroma)
    requires BestAlignment(f, intro, chunk).Some?
    ensures var scores := ComputeCorrelation(f, intro, chunk);
      var index := ArgMax(scores);
      && BestAlignment(f, intro, chunk).value == Peak(OffsetSeconds(OffsetFrames(index)), scores[index])
      && forall j :: 0 <= j < index ==> scores[j] < scores[index]
  {
  }
}
