/** find_intro_in_video of audio-scan.py: the coarse scan over the window stream, the best-match
    state it keeps, the refinement it triggers, and its three ways of returning. */
module IntroSearch {
  import opened Wrappers
  import opened ScanConfig
  import opened AudioStream
  import opened Correlation
  import opened Refinement

  /** Everything the scan reads but never changes. */
  datatype Env = Env(video: Video, probe: Probe, threshold: real)

  /** `(best_match_time, best_match_score)`. */
  datatype State = State(time: Option<real>, score: real)

  datatype Exit = AfterRefinement | AboveThreshold

  /** The row save_intro_timestamps is asked to write. */
  datatype Record = Record(start: real, end: real, score: real)

  /** A match returns early and is saved; NoMatch is the return after the stream is exhausted. */
  datatype Outcome =
    | Match(exit: Exit, time: real, score: real, saved: Record)
    | NoMatch(bestTime: Option<real>, bestScore: real)

  /** IntroFileNotFound: load_audio_from_file raises FileNotFoundError. VideoFileNotFound: the stream raises
      FileNotFoundError at its first pull. NoneTimestamp: format_timestamp(None) raises TypeError
      when the coarse exit is taken before any best match was recorded. */
  datatype SearchError = IntroFileNotFound | VideoFileNotFound | NoneTimestamp

  /** The result, and how many windows were taken from the stream. */
  datatype Verdict = Verdict(result: Result<Outcome, SearchError>, consumed: nat)

  datatype Step = Continue(state: State) | Stop(result: Result<Outcome, SearchError>)

  function SearchEnv(video: Video, features: Features, audio: seq<real>, threshold: real): Env
  {
    Env(video, Probe(features, features.chroma(audio), |audio|), threshold)
  }

  function WindowPeak(env: Env, w: Window): Option<Peak>
  {
    AudioPeak(env.probe, w.samples)
  }

  /** `match_time = chunk_start_time + offset_time`. */
  function MatchTime(w: Window, peak: Peak): real
  {
    w.start as real + peak.offset
  }

  /** The refinement a window triggers, if any, and its result. */
  function RefinementRun(env: Env, w: Window, s: State): Option<Scored>
  {
    match WindowPeak(env, w)
    case None => None
    case Some(peak) =>
      if peak.score > s.score && peak.score >= RefinementTrigger
      then Some(Refined(env.video.decoder, env.probe, MatchTime(w, peak)))
      else None
  }

  /** The best-match update for one window, before either early return is considered. */
  function Updated(env: Env, w: Window, s: State): State
  {
    match WindowPeak(env, w)
    case None => s
    case Some(peak) =>
      if peak.score > s.score then
        var s1 := State(Some(MatchTime(w, peak)), peak.score);
        match RefinementRun(env, w, s)
        case Some(r) => if r.score > s1.score then State(Some(r.time), r.score) else s1
        case None => s1
      else s
  }

  function MatchAt(env: Env, exit: Exit, time: real, score: real): Outcome
  {
    Match(exit, time, score, Record(time, time + IntroDuration(env.probe), score))
  }

  /** One iteration of the scan's `for` loop. */
  function StepWindow(env: Env, w: Window, s: State): Step
  {
    match WindowPeak(env, w)
    case None => Continue(s)
    case Some(peak) =>
      var next := Updated(env, w, s);
      var refined := RefinementRun(env, w, s);
      if refined.Some? && refined.value.score >= RefinementThreshold then
        Stop(Ok(MatchAt(env, AfterRefinement, next.time.value, next.score)))
      else if peak.score >= env.threshold then
        match next.time
        case None => Stop(Err(NoneTimestamp))
        case Some(t) => Stop(Ok(MatchAt(env, AboveThreshold, t, peak.score)))
      else Continue(next)
  }

  /** The scan over the remaining windows `ws` from state `s`. */
  function SearchOver(env: Env, ws: seq<Window>, s: State): (v: Verdict)
    ensures v.consumed <= |ws|
  {
    if ws == [] then Verdict(Ok(NoMatch(s.time, s.score)), 0)
    else match StepWindow(env, ws[0], s)
      case Stop(r) => Verdict(r, 1)
      case Continue(next) =>
        var v := SearchOver(env, ws[1..], next);
        Verdict(v.result, v.consumed + 1)
  }

  /** The whole of find_intro_in_video, given the intro audio as loaded (None when its file is
      missing). */
  function Search(video: Video, features: Features, introAudio: Option<seq<real>>, threshold: real): Verdict
  {
    match introAudio
    case None => Verdict(Err(IntroFileNotFound), 0)
    case Some(audio) =>
      var env := SearchEnv(video, features, audio, threshold);
      if !video.present then Verdict(Err(VideoFileNotFound), 0)
      else SearchOver(env, WindowsFrom(video, IntroDuration(env.probe), 0), State(None, 0.0))
  }

  method FindIntroInVideo(video: Video, features: Features, introAudio: Option<seq<real>>, threshold: real)
    returns (result: Result<Outcome, SearchError>, ghost pulled: nat)
    ensures result == Search(video, features, introAudio, threshold).result
    ensures pulled == Search(video, features, introAudio, threshold).consumed
  {
    if introAudio.None? {
      return Err(IntroFileNotFound), 0;
    }
    var introFeatures := features.chroma(introAudio.value);
    var probe := Probe(features, introFeatures, |introAudio.value|);
    var introDuration := IntroDuration(probe);
    var env := Env(video, probe, threshold);
    ghost var all := WindowsFrom(video, introDuration, 0);
    ghost var verdict := if video.present then SearchOver(env, all, State(None, 0.0)) else Verdict(Err(VideoFileNotFound), 0);
    assert Search(video, features, introAudio, threshold) == verdict;
    var bestTime: Option<real> := None;
    var bestScore := 0.0;
    var stream := new WindowStream(video, introDuration);
    while true
      invariant stream.Valid() && !stream.finished
      invariant stream.video == video && stream.chunkDuration == introDuration
      invariant !video.present ==> stream.chunkNum == 0
      invariant video.present ==>
        SearchOver(env, all, State(None, 0.0))
          == Shifted(SearchOver(env, WindowsFrom(video, introDuration, stream.chunkNum), State(bestTime, bestScore)),
                     stream.chunkNum)
      decreases video.decoder.length + SlideInterval - SlideInterval * stream.chunkNum
    {
      ghost var k := stream.chunkNum;
      ghost var s := State(bestTime, bestScore);
      var next := stream.Next();
      match next
      case VideoNotFound =>
        return Err(VideoFileNotFound), 0;
      case End =>
        return Ok(NoMatch(bestTime, bestScore)), k;
      case Yield(w) =>
        SearchOverFirst(env, w, WindowsFrom(video, introDuration, k + 1), s);
        var step := ScanWindow(env, w, bestTime, bestScore);
        if step.Stop? {
          return step.result, k + 1;
        }
        bestTime, bestScore := step.state.time, step.state.score;
    }
  }

  /** The body of the scan's `for` loop for one window, as the code runs it: the variables
      best_match_time and best_match_score updated in sequence, then the two early returns.
      StepWindow is its specification. The body is a method of its own so that the loop of
      FindIntroInVideo only relies on this contract; inlined, the two proofs together exceed what
      the verifier handles in one obligation. */
  method ScanWindow(env: Env, w: Window, bestTime: Option<real>, bestScore: real) returns (step: Step)
    ensures step == StepWindow(env, w, State(bestTime, bestScore))
  {
    var bestTime, bestScore := bestTime, bestScore;
    var windowPeak := AudioPeak(env.probe, w.samples);
    if windowPeak.None? {
      return Continue(State(bestTime, bestScore));
    }
    var peak := windowPeak.value;
    var matchTime := w.start as real + peak.offset;
    if peak.score > bestScore {
      bestScore := peak.score;
      bestTime := Some(matchTime);
      if peak.score >= RefinementTrigger {
        var refinedTime, refinedScore := RefineMatchLocation(env.video.decoder, env.probe, matchTime);
        if refinedScore > bestScore {
          bestScore := refinedScore;
          bestTime := Some(refinedTime);
        }
        if refinedScore >= RefinementThreshold {
          var endTime := bestTime.value + IntroDuration(env.probe);
          return Stop(Ok(Match(AfterRefinement, bestTime.value, bestScore,
                               Record(bestTime.value, endTime, bestScore))));
        }
      }
    }
    if peak.score >= env.threshold {
      if bestTime.None? {
        return Stop(Err(NoneTimestamp));
      }
      var endTime := bestTime.value + IntroDuration(env.probe);
      return Stop(Ok(Match(AboveThreshold, bestTime.value, peak.score,
                           Record(bestTime.value, endTime, peak.score))));
    }
    return Continue(State(bestTime, bestScore));
  }

  /** Scanning a window followed by more windows. */
  lemma SearchOverFirst(env: Env, w: Window, rest: seq<Window>, s: State)
    ensures StepWindow(env, w, s).Stop? ==>
      SearchOver(env, [w] + rest, s) == Verdict(StepWindow(env, w, s).result, 1)
    ensures StepWindow(env, w, s).Continue? ==>
      SearchOver(env, [w] + rest, s) == Shifted(SearchOver(env, rest, StepWindow(env, w, s).state), 1)
  {
    assert ([w] + rest)[0] == w;
    assert ([w] + rest)[1..] == rest;
  }

  function Shifted(v: Verdict, n: nat): Verdict
  {
    Verdict(v.result, v.consumed + n)
  }

  /** What the scan keeps true of its best-match pair: the score is never negative, the time is
      None exactly while the score is still 0.0, and a recorded time is never negative. */
  ghost predicate Sane(s: State)
  {
    s.score >= 0.0 && (s.time.None? <==> s.score == 0.0) && (s.time.Some? ==> s.time.value >= 0.0)
  }

  /** `best_match_score` never decreases, and the pair changes only on a strict improvement. */
  lemma UpdateOnlyImproves(env: Env, w: Window, s: State)
    ensures Updated(env, w, s).score >= s.score
    ensures Updated(env, w, s) != s ==> Updated(env, w, s).score > s.score && Updated(env, w, s).time.Some?
    ensures StepWindow(env, w, s).Continue? ==> StepWindow(env, w, s).state == Updated(env, w, s)
  {
  }

  /** A window with fewer feature frames than the intro leaves the state as it is. */
  lemma ShortWindowKeepsState(env: Env, w: Window, s: State)
    requires env.probe.features.chroma(w.samples).frames < env.probe.intro.frames
    ensures StepWindow(env, w, s) == Continue(s)
  {
  }

  /** Refinement runs only for a window that sets a new best with a score of at least 0.42, and
      around that window's match time; otherwise the decoder is not consulted at all. */
  lemma RefinementOnlyOnNewBest(env: Env, w: Window, s: State, other: Decoder)
    ensures RefinementRun(env, w, s).Some? ==>
      && WindowPeak(env, w).Some?
      && WindowPeak(env, w).value.score > s.score
      && WindowPeak(env, w).value.score >= RefinementTrigger
      && RefinementRun(env, w, s).value
        == Refined(env.video.decoder, env.probe, MatchTime(w, WindowPeak(env, w).value))
    ensures RefinementRun(env, w, s).None? ==>
      StepWindow(env, w, s) == StepWindow(env.(video := env.video.(decoder := other)), w, s)
  {
  }

  /** One window keeps the scan's pair sane, and a match it returns has a time at or after zero. */
  lemma StepKeepsSane(env: Env, w: Window, s: State)
    requires Sane(s)
    ensures StepWindow(env, w, s).Continue? ==> Sane(StepWindow(env, w, s).state)
    ensures Sane(Updated(env, w, s))
    ensures StepWindow(env, w, s).Stop? && StepWindow(env, w, s).result.Ok? ==>
      StepWindow(env, w, s).result.value.Match? && StepWindow(env, w, s).result.value.time >= 0.0
  {
    match WindowPeak(env, w)
    case None =>
    case Some(peak) =>
      if peak.score > s.score && peak.score >= RefinementTrigger {
        RefinedScoreNonNegative(env.video.decoder, env.probe, MatchTime(w, peak));
      }
  }

  /** The coarse exit returns the best time held after this window, paired with this window's own
      peak score, which may be below the best score held. */
  lemma CoarseExitPairing(env: Env, w: Window, s: State)
    requires StepWindow(env, w, s).Stop? && StepWindow(env, w, s).result.Ok?
    requires StepWindow(env, w, s).result.value.Match?
    requires StepWindow(env, w, s).result.value.exit == AboveThreshold
    ensures WindowPeak(env, w).Some?
    ensures StepWindow(env, w, s).result.value.score == WindowPeak(env, w).value.score
    ensures Updated(env, w, s).time == Some(StepWindow(env, w, s).result.value.time)
    ensures StepWindow(env, w, s).result.value.score <= Updated(env, w, s).score
    ensures StepWindow(env, w, s).result.value.score >= env.threshold
  {
  }

  /** The refined exit, by contrast, returns the best pair held after the refinement: the
      refined score reached 0.8, and the returned score is the best score, at least the refined one. */
  lemma RefinedExitPairing(env: Env, w: Window, s: State)
    requires StepWindow(env, w, s).Stop? && StepWindow(env, w, s).result.Ok?
    requires StepWindow(env, w, s).result.value.Match?
    requires StepWindow(env, w, s).result.value.exit == AfterRefinement
    ensures RefinementRun(env, w, s).Some? && RefinementRun(env, w, s).value.score >= RefinementThreshold
    ensures Updated(env, w, s).time == Some(StepWindow(env, w, s).result.value.time)
    ensures StepWindow(env, w, s).result.value.score == Updated(env, w, s).score
    ensures StepWindow(env, w, s).result.value.score >= RefinementRun(env, w, s).value.score
  {
  }

  /** Both early returns save [time, time + intro duration] with the returned score; the refined
      exit has a score of at least 0.8 whatever the threshold, the coarse exit one of at least the
      threshold; and an early return has taken at least one window. */
  lemma {:induction false} MatchExits(env: Env, ws: seq<Window>, s: State)
    ensures var v := SearchOver(env, ws, s);
      v.result.Ok? && v.result.value.Match? ==>
        && v.consumed >= 1
        && v.result.value.saved
          == Record(v.result.value.time, v.result.value.time + IntroDuration(env.probe), v.result.value.score)
        && (v.result.value.exit == AfterRefinement ==> v.result.value.score >= RefinementThreshold)
        && (v.result.value.exit == AboveThreshold ==> v.result.value.score >= env.threshold)
    decreases |ws|
  {
    if ws != [] {
      match StepWindow(env, ws[0], s)
      case Stop(r) =>
      case Continue(next) =>
        MatchExits(env, ws[1..], next);
    }
  }

  /** An early return depends only on the windows it consumed: the stream is not pulled again. */
  lemma {:induction false} DecidedByConsumedWindows(env: Env, ws: seq<Window>, other: seq<Window>, s: State)
    requires !(SearchOver(env, ws, s).result.Ok? && SearchOver(env, ws, s).result.value.NoMatch?)
    requires SearchOver(env, ws, s).consumed <= |other|
    requires other[..SearchOver(env, ws, s).consumed] == ws[..SearchOver(env, ws, s).consumed]
    ensures SearchOver(env, other, s) == SearchOver(env, ws, s)
    decreases |ws|
  {
    var n := SearchOver(env, ws, s).consumed;
    assert ws != [];
    assert other[0] == other[..n][0] == ws[..n][0] == ws[0];
    match StepWindow(env, ws[0], s)
    case Stop(r) =>
    case Continue(next) =>
      assert other[1..][..n - 1] == other[..n][1..] == ws[..n][1..] == ws[1..][..n - 1];
      DecidedByConsumedWindows(env, ws[1..], other[1..], next);
  }

  /** On exhaustion every window was consumed and none reached the threshold; the returned score is
      at least every window's peak; and the returned time is None exactly when no window (nor the
      starting pair) scored above 0.0. */
  lemma {:induction false} ExhaustedScan(env: Env, ws: seq<Window>, s: State)
    requires Sane(s)
    ensures var v := SearchOver(env, ws, s);
      v.result.Ok? && v.result.value.NoMatch? ==>
        && v.consumed == |ws|
        && v.result.value.bestScore >= s.score
        && Sane(State(v.result.value.bestTime, v.result.value.bestScore))
        && (forall i :: 0 <= i < |ws| && WindowPeak(env, ws[i]).Some? ==>
              WindowPeak(env, ws[i]).value.score < env.threshold
              && WindowPeak(env, ws[i]).value.score <= v.result.value.bestScore)
        && (v.result.value.bestTime.None? <==>
              s.time.None?
              && forall i :: 0 <= i < |ws| && WindowPeak(env, ws[i]).Some? ==> WindowPeak(env, ws[i]).value.score <= 0.0)
    decreases |ws|
  {
    if ws != [] {
      StepKeepsSane(env, ws[0], s);
      UpdateOnlyImproves(env, ws[0], s);
      match StepWindow(env, ws[0], s)
      case Stop(r) =>
      case Continue(next) =>
        ExhaustedScan(env, ws[1..], next);
        assert forall i :: 1 <= i < |ws| ==> ws[i] == ws[1..][i - 1];
    }
  }

  /** NoneTimestamp: the coarse exit can be taken with no best time recorded only when the threshold
      is at most 0.0. */
  lemma {:induction false} NoneTimestampNeedsNonPositiveThreshold(env: Env, ws: seq<Window>, s: State)
    requires Sane(s)
    ensures SearchOver(env, ws, s).result == Err(NoneTimestamp) ==> env.threshold <= 0.0
    decreases |ws|
  {
    if ws != [] {
      StepKeepsSane(env, ws[0], s);
      match StepWindow(env, ws[0], s)
      case Stop(r) =>
      case Continue(next) =>
        NoneTimestampNeedsNonPositiveThreshold(env, ws[1..], next);
    }
  }

  /** The whole search: a missing intro file is reported before the video is looked at; the stream's
      windows are scanned from (None, 0.0); the exhaustion return holds a time exactly when some
      window scored above 0.0; and NoneTimestamp needs a threshold of at most 0.0. */
  lemma SearchResult(video: Video, features: Features, introAudio: Option<seq<real>>, threshold: real)
    ensures introAudio.None? ==> Search(video, features, introAudio, threshold).result == Err(IntroFileNotFound)
    ensures introAudio.Some? && !video.present ==>
      Search(video, features, introAudio, threshold).result == Err(VideoFileNotFound)
    ensures Search(video, features, introAudio, threshold).result == Err(NoneTimestamp) ==> threshold <= 0.0
    ensures introAudio.Some? ==>
      var env := SearchEnv(video, features, introAudio.value, threshold);
      var ws := WindowsFrom(video, IntroDuration(env.probe), 0);
      var v := Search(video, features, introAudio, threshold);
      v.result.Ok? && v.result.value.NoMatch? ==>
        (v.result.value.bestTime.None? <==>
          forall i :: 0 <= i < |ws| && WindowPeak(env, ws[i]).Some? ==> WindowPeak(env, ws[i]).value.score <= 0.0)
  {
    if introAudio.Some? && video.present {
      var env := SearchEnv(video, features, introAudio.value, threshold);
      var ws := WindowsFrom(video, IntroDuration(env.probe), 0);
      assert Search(video, features, introAudio, threshold) == SearchOver(env, ws, State(None, 0.0));
      ExhaustedScan(env, ws, State(None, 0.0));
      NoneTimestampNeedsNonPositiveThreshold(env, ws, State(None, 0.0));
      var v := SearchOver(env, ws, State(None, 0.0));
      if v.result.Ok? && v.result.value.NoMatch? {
        assert v.result.value.bestTime.None? <==>
          forall i :: 0 <= i < |ws| && WindowPeak(env, ws[i]).Some? ==> WindowPeak(env, ws[i]).value.score <= 0.0;
      }
    }
  }
}
