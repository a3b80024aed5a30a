/** refine_match_location of audio-scan.py: a 0.5-second sub-search around a coarse match. */
module Refinement {
  import opened Wrappers
  import opened Bytes
  import opened ScanConfig
  import opened AudioStream
  import opened Correlation

  /** A (time, score) pair as the search keeps it. */
  datatype Scored = Scored(time: real, score: real)

  /** What the refinement needs to know about the intro: its features and its sample count. */
  datatype Probe = Probe(features: Features, intro: Chroma, introLength: nat)

  /** `intro_duration = len(intro_audio) / SAMPLE_RATE`. */
  function IntroDuration(p: Probe): (r: real)
    ensures r >= 0.0
  {
    p.introLength as real / SampleRate as real
  }

  function Max0(x: real): (r: real)
    ensures r >= 0.0 && r >= x && (r == 0.0 || r == x)
  {
    if x < 0.0 then 0.0 else x
  }

  /** Python's int() on a float: truncation toward zero. */
  function Trunc(x: real): int
  {
    if x >= 0.0 then x.Floor else -((-x).Floor)
  }

  /** extract_audio_snippet: decode from the clamped start; a failed decode, no bytes or an odd
      byte count (np.frombuffer raises, the `except` returns None) give no snippet. */
  function SnippetAudio(d: Decoder, start: real, duration: real): (r: Option<seq<real>>)
    ensures r.Some? ==> |r.value| > 0
  {
    match Decode(d, Max0(start), duration)
    case DecodeFailed => None
    case Pcm(data) =>
      if |data| == 0 then None
      else PcmSamples(data)
  }

  /** `window_start` after k steps of REFINEMENT_INTERVAL. */
  function SubWindowStart(k: nat): (r: real)
    ensures r >= 0.0
  {
    k as real * RefinementInterval
  }

  /** In exact arithmetic the sub-window starting at `windowStart`, the k-th, covers samples
      [11025 k, 11025 k + intro length), and it fits exactly when it ends before the snippet does. */
  lemma SubWindowBounds(p: Probe, samples: seq<real>, windowStart: real, k: nat)
    requires windowStart == SubWindowStart(k)
    ensures Trunc(windowStart * SampleRate as real) == 11025 * k
    ensures Trunc((windowStart + IntroDuration(p)) * SampleRate as real) == 11025 * k + p.introLength
    ensures windowStart < |samples| as real / SampleRate as real - IntroDuration(p)
      <==> 11025 * k + p.introLength < |samples|
  {
    assert windowStart * SampleRate as real == (11025 * k) as real;
    assert (windowStart + IntroDuration(p)) * SampleRate as real == (11025 * k + p.introLength) as real;
    assert |samples| as real / SampleRate as real - IntroDuration(p)
      == (|samples| - p.introLength) as real / SampleRate as real;
  }

  /** extract_audio_features on a stretch of audio, then the intro's correlation peak in it. */
  function AudioPeak(p: Probe, audio: seq<real>): Option<Peak>
  {
    BestAlignment(p.features, p.intro, p.features.chroma(audio))
  }

  /** What one sub-window contributes: its peak, if it has one. */
  function SubWindowPeak(p: Probe, samples: seq<real>, k: nat): Option<Peak>
    requires 11025 * k + p.introLength < |samples|
  {
    AudioPeak(p, samples[11025 * k .. 11025 * k + p.introLength])
  }

  /** What the loop computes from the slice [lo, hi) of sub-window k is SubWindowPeak. */
  lemma SubWindowSlice(p: Probe, samples: seq<real>, k: nat, lo: int, hi: int)
    requires lo == 11025 * k && hi == 11025 * k + p.introLength && hi < |samples|
    ensures AudioPeak(p, samples[lo..hi]) == SubWindowPeak(p, samples, k)
  {
  }

  /** The time a sub-window peak stands for: `actual_snippet_start + window_start + offset_time`. */
  function PeakTime(base: real, k: nat, peak: Peak): real
  {
    base + SubWindowStart(k) + peak.offset
  }

  /** The loop from sub-window k on, with `best` the pair kept so far. The fit test is the exact
      form SubWindowBounds gives; the `window_end_sample > len(snippet_audio)` break never fires
      in exact arithmetic, because a window that fits ends before the snippet does. */
  function RefineFrom(p: Probe, samples: seq<real>, base: real, k: nat, best: Scored): Scored
    decreases |samples| - 11025 * k
  {
    if 11025 * k + p.introLength >= |samples| then best
    else match SubWindowPeak(p, samples, k)
      case None => RefineFrom(p, samples, base, k + 1, best)
      case Some(peak) =>
        var kept := if peak.score > best.score then Scored(PeakTime(base, k, peak), peak.score) else best;
        if peak.score >= RefinementThreshold then kept
        else RefineFrom(p, samples, base, k + 1, kept)
  }

  /** One round of the loop on a sub-window with a peak: the loop stops with the pair it keeps, or
      goes on to the next sub-window with it. */
  lemma RefineStep(p: Probe, samples: seq<real>, base: real, k: nat, best: Scored, peak: Peak, kept: Scored)
    requires 11025 * k + p.introLength < |samples| && SubWindowPeak(p, samples, k) == Some(peak)
    requires kept == if peak.score > best.score then Scored(base + SubWindowStart(k) + peak.offset, peak.score) else best
    ensures RefineFrom(p, samples, base, k, best)
      == if peak.score >= RefinementThreshold then kept else RefineFrom(p, samples, base, k + 1, kept)
  {
  }

  /** A sub-window without a peak leaves the pair kept so far and moves on. */
  lemma RefineSkip(p: Probe, samples: seq<real>, base: real, k: nat, best: Scored)
    requires 11025 * k + p.introLength < |samples| && SubWindowPeak(p, samples, k).None?
    ensures RefineFrom(p, samples, base, k, best) == RefineFrom(p, samples, base, k + 1, best)
  {
  }

  /** The pairs the loop looks at from sub-window k on, in order. */
  function ExaminedFrom(p: Probe, samples: seq<real>, base: real, k: nat): seq<Scored>
    decreases |samples| - 11025 * k
  {
    if 11025 * k + p.introLength >= |samples| then []
    else match SubWindowPeak(p, samples, k)
      case None => ExaminedFrom(p, samples, base, k + 1)
      case Some(peak) =>
        var here := Scored(PeakTime(base, k, peak), peak.score);
        if peak.score >= RefinementThreshold then [here]
        else [here] + ExaminedFrom(p, samples, base, k + 1)
  }

  /** Keep the first pair that beats everything before it. */
  function BestOf(best: Scored, candidates: seq<Scored>): Scored
    decreases |candidates|
  {
    if candidates == [] then best
    else
      var c := candidates[0];
      BestOf(if c.score > best.score then c else best, candidates[1..])
  }

  /** The whole of refine_match_location. */
  function Refined(d: Decoder, p: Probe, anchor: real): Scored
  {
    var start := anchor - RefinementWindow;
    var duration := 2.0 * RefinementWindow + IntroDuration(p) + RefinementInterval;
    match SnippetAudio(d, start, duration)
    case None => Scored(anchor, 0.0)
    case Some(samples) => RefineFrom(p, samples, Max0(start), 0, Scored(anchor, 0.0))
  }

  method RefineMatchLocation(d: Decoder, p: Probe, anchor: real) returns (bestTime: real, bestScore: real)
    ensures Scored(bestTime, bestScore) == Refined(d, p, anchor)
  {
    var snippetStart := anchor - RefinementWindow;
    var snippetDuration := 2.0 * RefinementWindow + IntroDuration(p) + RefinementInterval;
    var snippet := SnippetAudio(d, snippetStart, snippetDuration);
    if snippet.None? {
      return anchor, 0.0;
    }
    bestTime, bestScore := SlideSubWindows(p, snippet.value, Max0(snippetStart), anchor);
  }

  /** The sliding loop of refine_match_location over the decoded snippet. */
  method SlideSubWindows(p: Probe, samples: seq<real>, actualStart: real, anchor: real)
    returns (bestTime: real, bestScore: real)
    ensures Scored(bestTime, bestScore) == RefineFrom(p, samples, actualStart, 0, Scored(anchor, 0.0))
  {
    bestTime, bestScore := anchor, 0.0;
    var windowStart := 0.0;
    ghost var k: nat := 0;
    ghost var goal := RefineFrom(p, samples, actualStart, 0, Scored(anchor, 0.0));
    while windowStart < |samples| as real / SampleRate as real - IntroDuration(p)
      invariant windowStart == SubWindowStart(k)
      invariant RefineFrom(p, samples, actualStart, k, Scored(bestTime, bestScore)) == goal
      decreases |samples| - 11025 * k
    {
      SubWindowBounds(p, samples, windowStart, k);
      var lo := Trunc(windowStart * SampleRate as real);
      var hi := Trunc((windowStart + IntroDuration(p)) * SampleRate as real);
      if hi > |samples| {
        break;
      }
      var peak := AudioPeak(p, samples[lo..hi]);
      SubWindowSlice(p, samples, k, lo, hi);
      ghost var before := Scored(bestTime, bestScore);
      match peak {
        case None =>
          RefineSkip(p, samples, actualStart, k, before);
        case Some(pk) =>
          if pk.score > bestScore {
            bestScore := pk.score;
            bestTime := actualStart + windowStart + pk.offset;
          }
          RefineStep(p, samples, actualStart, k, before, pk, Scored(bestTime, bestScore));
          if pk.score >= RefinementThreshold {
            break;
          }
      }
      windowStart := windowStart + RefinementInterval;
      k := k + 1;
    }
    SubWindowBounds(p, samples, windowStart, k);
  }

  /** BestOf keeps or raises the score, never loses a better candidate, and returns either the
      starting pair or one of the candidates, which then beats the starting score strictly. */
  lemma {:induction false} BestOfIsMaximum(best: Scored, candidates: seq<Scored>)
    ensures BestOf(best, candidates).score >= best.score
    ensures forall c :: c in candidates ==> c.score <= BestOf(best, candidates).score
    ensures BestOf(best, candidates) == best
      || (BestOf(best, candidates) in candidates && BestOf(best, candidates).score > best.score)
    decreases |candidates|
  {
    if candidates != [] {
      var c := candidates[0];
      var next := if c.score > best.score then c else best;
      BestOfIsMaximum(next, candidates[1..]);
      assert forall x :: x in candidates ==> x == c || x in candidates[1..];
    }
  }

  /** No candidate above the starting score leaves the starting pair in place. */
  lemma {:induction false} BestOfKeepsStart(best: Scored, candidates: seq<Scored>)
    requires forall c :: c in candidates ==> c.score <= best.score
    ensures BestOf(best, candidates) == best
    decreases |candidates|
  {
    if candidates != [] {
      assert candidates[0] in candidates;
      assert forall x :: x in candidates[1..] ==> x in candidates;
      BestOfKeepsStart(best, candidates[1..]);
    }
  }

  /** The loop keeps the best of the pairs it examines. */
  lemma {:induction false} RefineIsBestOfExamined(p: Probe, samples: seq<real>, base: real, k: nat, best: Scored)
    ensures RefineFrom(p, samples, base, k, best) == BestOf(best, ExaminedFrom(p, samples, base, k))
    decreases |samples| - 11025 * k
  {
    if 11025 * k + p.introLength < |samples| {
      match SubWindowPeak(p, samples, k)
      case None =>
        RefineIsBestOfExamined(p, samples, base, k + 1, best);
      case Some(peak) =>
        var here := Scored(PeakTime(base, k, peak), peak.score);
        var kept := if peak.score > best.score then here else best;
        if peak.score >= RefinementThreshold {
          assert ExaminedFrom(p, samples, base, k) == [here];
          assert BestOf(best, [here]) == BestOf(kept, []);
        } else {
          RefineIsBestOfExamined(p, samples, base, k + 1, kept);
          var rest := ExaminedFrom(p, samples, base, k + 1);
          assert ExaminedFrom(p, samples, base, k) == [here] + rest;
          assert ([here] + rest)[1..] == rest;
        }
    }
  }

  /** Every examined pair lies at or after the clamped snippet start, and only the last one may
      reach REFINEMENT_THRESHOLD: the loop stops at the first that does. */
  lemma {:induction false} ExaminedShape(p: Probe, samples: seq<real>, base: real, k: nat)
    ensures forall c :: c in ExaminedFrom(p, samples, base, k) ==> c.time >= base
    ensures forall i :: 0 <= i < |ExaminedFrom(p, samples, base, k)| - 1 ==>
      ExaminedFrom(p, samples, base, k)[i].score < RefinementThreshold
    decreases |samples| - 11025 * k
  {
    if 11025 * k + p.introLength < |samples| {
      ExaminedShape(p, samples, base, k + 1);
      match SubWindowPeak(p, samples, k)
      case None =>
      case Some(peak) =>
        var here := Scored(PeakTime(base, k, peak), peak.score);
        var rest := ExaminedFrom(p, samples, base, k + 1);
        if peak.score < RefinementThreshold {
          assert ExaminedFrom(p, samples, base, k) == [here] + rest;
          assert forall i :: 1 <= i < |[here] + rest| ==> ([here] + rest)[i] == rest[i - 1];
        }
    }
  }

  /** refine_match_location's result: (anchor, 0.0) without a snippet; otherwise a non-negative
      score that is the maximum of the examined sub-windows, the anchor kept when none scores above
      zero, and otherwise the time of an examined sub-window at or after max(0, anchor - 15). */
  lemma RefinedResult(d: Decoder, p: Probe, anchor: real)
    ensures var start := anchor - RefinementWindow;
      var duration := 2.0 * RefinementWindow + IntroDuration(p) + RefinementInterval;
      match SnippetAudio(d, start, duration)
      case None => Refined(d, p, anchor) == Scored(anchor, 0.0)
      case Some(samples) =>
        var examined := ExaminedFrom(p, samples, Max0(start), 0);
        var r := Refined(d, p, anchor);
        && r.score >= 0.0
        && (forall c :: c in examined ==> c.score <= r.score)
        && ((forall c :: c in examined ==> c.score <= 0.0) ==> r == Scored(anchor, 0.0))
        && (r == Scored(anchor, 0.0) || (r in examined && r.score > 0.0 && r.time >= Max0(start)))
  {
    var start := anchor - RefinementWindow;
    var duration := 2.0 * RefinementWindow + IntroDuration(p) + RefinementInterval;
    match SnippetAudio(d, start, duration)
    case None =>
    case Some(samples) =>
      var examined := ExaminedFrom(p, samples, Max0(start), 0);
      RefineIsBestOfExamined(p, samples, Max0(start), 0, Scored(anchor, 0.0));
      BestOfIsMaximum(Scored(anchor, 0.0), examined);
      ExaminedShape(p, samples, Max0(start), 0);
      if forall c :: c in examined ==> c.score <= 0.0 {
        BestOfKeepsStart(Scored(anchor, 0.0), examined);
      }
  }

  /** The refined score is never negative, and a positive one comes with a time at or after zero. */
  lemma RefinedScoreNonNegative(d: Decoder, p: Probe, anchor: real)
    ensures Refined(d, p, anchor).score >= 0.0
    ensures Refined(d, p, anchor).score > 0.0 ==> Refined(d, p, anchor).time >= 0.0
  {
    RefinedResult(d, p, anchor);
  }

  /** The only decode the refinement makes starts at max(0, anchor - REFINEMENT_WINDOW) and asks
      for 2 * 15 + intro duration + 0.5 seconds, clamped or not: two decoders that answer that one
      request alike give the same result. */
  lemma SnippetRequest(d1: Decoder, d2: Decoder, p: Probe, anchor: real)
    requires var duration := 2.0 * RefinementWindow + IntroDuration(p) + RefinementInterval;
      Decode(d1, Max0(anchor - RefinementWindow), duration)
        == Decode(d2, Max0(anchor - RefinementWindow), duration)
    ensures Refined(d1, p, anchor) == Refined(d2, p, anchor)
    ensures anchor <= RefinementWindow ==> Max0(anchor - RefinementWindow) == 0.0
  {
  }
}
