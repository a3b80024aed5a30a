/** The decoder boundary and the window generator `stream_audio_from_video` of audio-scan.py. */
module AudioStream {
  import opened Wrappers
  import opened Bytes
  import opened ScanConfig

  /** What one ffmpeg run reports: a non-zero exit status, or the s16le bytes it wrote. */
  datatype DecodeResult = DecodeFailed | Pcm(data: seq<byte>)

  /** The external decoder of one video. `decode(start, duration)` is ffmpeg's answer for
      `-ss start -t duration`; the audio is `length` seconds long, and a decode that starts at or
      after that point writes no bytes. */
  datatype Decoder = Decoder(decode: (real, real) -> DecodeResult, length: nat)

  function Decode(d: Decoder, start: real, duration: real): (r: DecodeResult)
    ensures start >= d.length as real ==> r == Pcm([])
  {
    if start >= d.length as real then Pcm([]) else d.decode(start, duration)
  }

  /** The video as the generator sees it: whether the path exists, what ffprobe reported as its
      duration (None when probing failed), and its decoder. */
  datatype Video = Video(present: bool, duration: Option<real>, decoder: Decoder)

  /** One yielded `(audio_chunk, chunk_start)`. */
  datatype Window = Window(start: nat, samples: seq<real>)

  /** What pulling the generator once more gives. */
  datatype Pull = Yield(window: Window) | End | VideoNotFound

  /** `if total_duration and chunk_start >= total_duration`: a known, non-zero duration reached. */
  predicate PastKnownEnd(duration: Option<real>, chunkStart: nat)
  {
    duration.Some? && duration.value != 0.0 && chunkStart as real >= duration.value
  }

  /** The pull that follows `k` yielded windows, i.e. with chunk_start = 3 * k and chunk_num = k.
      The missing path raises FileNotFoundError before the first decode. A failed decode ends the
      stream: for the first window the RuntimeError is raised inside the `try` and caught by its own
      `except`, later ones `break`. No bytes end it too, and so does an odd byte count, for which
      np.frombuffer raises ValueError into the same `except`. */
  function PullAt(v: Video, chunkDuration: real, k: nat): Pull
  {
    var chunkStart := SlideInterval * k;
    if k == 0 && !v.present then VideoNotFound
    else if PastKnownEnd(v.duration, chunkStart) then End
    else match Decode(v.decoder, chunkStart as real, chunkDuration)
      case DecodeFailed => End
      case Pcm(data) =>
        if |data| == 0 then End
        else match PcmSamples(data)
          case None => End
          case Some(samples) => Yield(Window(chunkStart, samples))
  }

  /** All windows the generator yields once it has yielded `k`, in order. */
  function WindowsFrom(v: Video, chunkDuration: real, k: nat): seq<Window>
    decreases v.decoder.length + SlideInterval - SlideInterval * k
  {
    match PullAt(v, chunkDuration, k)
    case Yield(w) => [w] + WindowsFrom(v, chunkDuration, k + 1)
    case _ => []
  }

  /** The generator object: its two loop variables and whether it has stopped. */
  class WindowStream {
    const video: Video
    const chunkDuration: real
    var chunkStart: nat
    var chunkNum: nat
    var finished: bool

    ghost predicate Valid()
      reads this
    {
      chunkStart == SlideInterval * chunkNum
    }

    constructor (video: Video, chunkDuration: real)
      ensures Valid() && this.video == video && this.chunkDuration == chunkDuration
      ensures chunkNum == 0 && !finished
    {
      this.video := video;
      this.chunkDuration := chunkDuration;
      chunkStart := 0;
      chunkNum := 0;
      finished := false;
    }

    /** Resume the generator until it yields or stops. A stopped generator stays stopped. */
    method Next() returns (p: Pull)
      requires Valid()
      modifies this
      ensures Valid()
      ensures p == if old(finished) then End else PullAt(video, chunkDuration, old(chunkNum))
      ensures chunkNum == old(chunkNum) + (if p.Yield? then 1 else 0)
      ensures finished == !p.Yield?
    {
      if finished {
        return End;
      }
      if chunkNum == 0 && !video.present {
        finished := true;
        return VideoNotFound;
      }
      if PastKnownEnd(video.duration, chunkStart) {
        finished := true;
        return End;
      }
      var result := Decode(video.decoder, chunkStart as real, chunkDuration);
      if result.DecodeFailed? || |result.data| == 0 {
        finished := true;
        return End;
      }
      var samples := PcmSamples(result.data);
      if samples.None? {
        finished := true;
        return End;
      }
      p := Yield(Window(chunkStart, samples.value));
      chunkNum := chunkNum + 1;
      chunkStart := chunkStart + SlideInterval;
    }
  }

  /** The i-th window of the stream starts at 3 * i seconds. */
  lemma {:induction false} WindowStarts(v: Video, chunkDuration: real, k: nat, i: nat)
    requires i < |WindowsFrom(v, chunkDuration, k)|
    ensures WindowsFrom(v, chunkDuration, k)[i].start == SlideInterval * (k + i)
    decreases i
  {
    if i > 0 {
      WindowStarts(v, chunkDuration, k + 1, i - 1);
    }
  }

  /** Every yielded window holds the decoder's bytes for its start, scaled to samples. */
  lemma {:induction false} WindowSamples(v: Video, chunkDuration: real, k: nat, i: nat)
    requires i < |WindowsFrom(v, chunkDuration, k)|
    ensures Decode(v.decoder, (SlideInterval * (k + i)) as real, chunkDuration).Pcm?
    ensures var data := Decode(v.decoder, (SlideInterval * (k + i)) as real, chunkDuration).data;
      |data| > 0 && PcmSamples(data) == Some(WindowsFrom(v, chunkDuration, k)[i].samples)
    decreases i
  {
    if i > 0 {
      WindowSamples(v, chunkDuration, k + 1, i - 1);
    }
  }

  /** With a known, non-zero duration, every window starts before it. */
  lemma {:induction false} WindowsBeforeKnownEnd(v: Video, chunkDuration: real, k: nat, i: nat)
    requires v.duration.Some? && v.duration.value != 0.0
    requires i < |WindowsFrom(v, chunkDuration, k)|
    ensures (WindowsFrom(v, chunkDuration, k)[i].start as real) < v.duration.value
    decreases i
  {
    if i > 0 {
      WindowsBeforeKnownEnd(v, chunkDuration, k + 1, i - 1);
    }
  }

  /** A failed, empty or odd-sized decode of the first window ends the stream without an error,
      like any later one. */
  lemma FirstDecodeFailureEndsQuietly(v: Video, chunkDuration: real)
    requires v.present
    requires var r := Decode(v.decoder, 0.0, chunkDuration);
      r.DecodeFailed? || |r.data| == 0 || |r.data| % 2 == 1
    ensures PullAt(v, chunkDuration, 0) == End
    ensures WindowsFrom(v, chunkDuration, 0) == []
  {
  }

  /** The stream is finite: it never yields a window starting at or after the audio's end. */
  lemma {:induction false} WindowsBeforeAudioEnd(v: Video, chunkDuration: real, k: nat, i: nat)
    requires i < |WindowsFrom(v, chunkDuration, k)|
    ensures SlideInterval * (k + i) < v.decoder.length
    decreases i
  {
    if i > 0 {
      WindowsBeforeAudioEnd(v, chunkDuration, k + 1, i - 1);
    }
  }
}
