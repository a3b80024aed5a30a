# vlc-skip-intro, modelled in Dafny

vlc-skip-intro finds where a known intro tune starts inside a video file. It then stores that
time so that a VLC extension can skip the intro. This project models the computational core of
the scripts that do this, and proves properties of the model.

- **The intro detector** (`intro-detection/audio-scan.py`):
  - the OpenSubtitles movie hash that identifies a file;
  - the `mm:ss` formatting of times;
  - the generator that slides a decoding window over the video in 3-second steps;
  - the "valid" chroma cross-correlation and how its peak index turns into a time;
  - the 0.5-second refinement around a promising coarse match;
  - the coarse scan, which returns on a strong refined match or on a coarse match above the threshold.
- **The TMDB lookups** (`intro-detection/tmdb_lookup.py` and `tmdb-lookup.py`):
  - the file-name parser and title cleaner that both scripts share. Their code is identical in the two files, so it is defined once in `FilenameParsing`;
  - the search request each parse leads to;
  - what each script's `find_tmdb_id` returns for a list of search hits: an id, or an id text `id:season:episode` in one script, and a match record with a confidence in the other.
- **The cache exporter** (`vlc-plugin/export_db_cache.py`):
  - turns the stored rows into the JSON cache's `entries` list;
  - builds its `by_hash` and `by_file` lookup maps.

Modules, one per component:

- `Wrappers`: `Option`, `Result`.
- `Numerals`: `str()`, `%02d` and `%016x`, and reading numerals back.
- `Bytes`: little-endian words and s16le PCM.
- `ScanConfig`: the tuning constants.
- `Timestamp`, `MovieHash`.
- `AudioStream`: the decoder boundary and the window generator, a class.
- `Correlation`, `Refinement`, `IntroSearch`.
- `FilenameParsing`, with concrete names worked through in `FilenameExamples`.
- `TmdbJson`: JSON hits, `dict` access, the search requests and `split(':')`.
- `TmdbSelect`: `find_tmdb_id` of `intro-detection/tmdb_lookup.py`.
- `TmdbMatch`: `find_tmdb_id` of `tmdb-lookup.py`.
- `Utf8`: strict UTF-8, for `bytes.decode('utf-8')`.
- `ExportCache`.

Where the code does something else than its documentation describes, the model follows the code:

- **A failed first window ends the stream quietly.** The `RuntimeError` raised for a failed first decode (`audio-scan.py:253-255`) is inside the `try` whose `except Exception` ends the generator (`audio-scan.py:281-283`). A failure on the first window therefore ends the stream without an error, like a later one (`AudioStream.FirstDecodeFailureEndsQuietly`).
- **The correlation length follows scipy.** A "valid" correlation has |M−N|+1 values and is empty only when an input is empty. It is not empty whenever the reference is longer. The scan only correlates when the window has at least as many frames as the intro, so both readings agree where it matters (`Correlation.ComputeCorrelation`).
- **A refined match may be returned below the coarse threshold.** The early return after refinement checks only `REFINEMENT_THRESHOLD` (0.8), never `correlation_threshold` (`audio-scan.py:453`). With a threshold above 0.8, a match can be returned with a score below it (`IntroSearch.MatchExits`).
- **TV hits from TMDB normally have no `season` key.** `find_tmdb_id` in `intro-detection/tmdb_lookup.py` reads `best["season"]` on every tv and multi-search hit. The TMDB search results normally carry no "season" field, so that branch then raises `KeyError`. The model keeps that error (`TmdbSelect.KeyErrorsOfTheEpisodeBranch`).
- **Thresholds are inclusive.** The configuration comments describe the thresholds as "> this" (`audio-scan.py:26-27`), but the code compares with `>=` (`audio-scan.py:382`, `443`, `453`). The model uses `>=`.
- **The saving code does not match its table.** `save_intro_timestamps` inserts an `outro_length` column (`audio-scan.py:123`) that the script's own `CREATE TABLE` lacks (`audio-scan.py:34-44`). It also closes the module-level connection after one save (`audio-scan.py:128`). Both lie outside the model, which records only what would be saved.
- **A duplicate hash or name points at the oldest row.** The exporter fetches rows by descending id, and a later write wins in its maps. So a hash or file name stored twice maps to the entry of the row with the lowest id (`ExportCache.LowestIdWins`).

## Model

| member | source | states |
|---|---|---|
| Bytes.UInt64LE | intro-detection/audio-scan.py:80-92 | the `<q` word read as unsigned lies below 2^64 |
| Bytes.Int16LE | intro-detection/audio-scan.py:265 | an int16 read from two bytes lies in [-32768, 32768) |
| Bytes.PcmSamples | intro-detection/audio-scan.py:264-266 | frombuffer succeeds exactly on an even byte count, gives half as many samples, each the int16 at its byte pair divided by 32768 |
| Bytes.SamplesInRange | intro-detection/audio-scan.py:266 | every normalised sample lies in [-1, 1) |
| Bytes.EncodePcm | intro-detection/audio-scan.py:235-238 | the decoder's s16le output has two bytes per sample |
| Bytes.Int16RoundTrip | intro-detection/audio-scan.py:265 | reading back the s16le bytes of a 16-bit value gives the value |
| Bytes.PcmRoundTrip | intro-detection/audio-scan.py:264-266 | decoding s16le output recovers every sample, scaled by 1/32768 |
| Numerals.DigitRoundTrip | intro-detection/audio-scan.py:106 | every hex digit character reads back as its digit |
| Numerals.Digits | intro-detection/audio-scan.py:106 | a numeral is non-empty and made of lower-case hex digits |
| Numerals.DigitsAreDecimal | intro-detection/audio-scan.py:54 | base-10 numerals use decimal digits only |
| Numerals.DigitsRoundTrip | intro-detection/audio-scan.py:106 | reading a numeral back gives the number, in every base from 2 to 16 |
| Numerals.ParseLeadingZeros | intro-detection/audio-scan.py:106 | the zero padding of `%016x` and `%02d` does not change the value read back |
| Numerals.ZeroPad | intro-detection/audio-scan.py:106 | padding gives max(len, width) characters: zeros, then the text |
| Timestamp.FieldsSplitWholeSeconds | intro-detection/audio-scan.py:50-54 | the seconds field lies in [0, 60), minutes * 60 + seconds is the whole seconds, and minutes are non-negative for non-negative input |
| Timestamp.FormatTimestamp | intro-detection/audio-scan.py:50-54 | the "mm:ss" text of the floor-divided minutes and remaining whole seconds; FormatReadsBack states what it reads back as |
| Timestamp.Pad2ReadsBack | intro-detection/audio-scan.py:54 | `%02d` of n is decimal, at least two characters, exactly two below 100, and reads back as n |
| Timestamp.JoinedFieldsReadBack | intro-detection/audio-scan.py:54 | two decimal fields joined by ':' read back as the pair of their values |
| Timestamp.FormatReadsBack | intro-detection/audio-scan.py:50-54 | for non-negative input the text reads back as (minutes, seconds); below 100 minutes it is five characters with ':' in the middle |
| MovieHash.Word | intro-detection/audio-scan.py:89-92 | a little-endian word lies below 2^64 |
| MovieHash.FullWords | intro-detection/audio-scan.py:88-91 | one pass reads at most 8192 whole words and never past the end |
| MovieHash.TailOffset | intro-detection/audio-scan.py:97 | the second pass starts inside the file |
| MovieHash.HashValue | intro-detection/audio-scan.py:84-104 | the closed-form hash lies below 2^64 |
| MovieHash.Mask64 | intro-detection/audio-scan.py:94 | `& 0xFFFFFFFFFFFFFFFF` gives a value below 2^64, also for a negative sum |
| MovieHash.Read | intro-detection/audio-scan.py:89-90 | f.read(n) gives at most n bytes, and exactly n when that many remain |
| MovieHash.SignedAddMasks | intro-detection/audio-scan.py:92-94 | adding the signed `<q` reading and masking equals unsigned addition mod 2^64 |
| MovieHash.ReadPass | intro-detection/audio-scan.py:88-94 | the read loop, with its short-read break, ends with the pass value of its start state |
| MovieHash.FullWordsStop | intro-detection/audio-scan.py:88-91 | a pass that stops on a short read or after 8192 words has read exactly FullWords words |
| MovieHash.TwoPassesGiveHash | intro-detection/audio-scan.py:84-104 | the head pass followed by the tail pass gives the closed-form hash |
| MovieHash.CalculateOpenSubtitlesHash | intro-detection/audio-scan.py:57-107 | a missing path and a non-file raise their FileNotFoundError; a file gives (16-digit hex of the hash, size) |
| MovieHash.TinyFileHashIsSize | intro-detection/audio-scan.py:84-91 | a file under 8 bytes hashes to its size |
| MovieHash.SmallFilePassesCoincide | intro-detection/audio-scan.py:97 | under 64 KiB both passes start at 0 and read the same size / 8 full words |
| MovieHash.SmallFileCountsWordsTwice | intro-detection/audio-scan.py:84-104 | under 64 KiB the hash is size + twice the sum of the words, mod 2^64 |
| MovieHash.LargeFileReadsBothEnds | intro-detection/audio-scan.py:88-104 | from 64 KiB on, the passes read exactly the first and the last 64 KiB |
| MovieHash.TrailingPartialWordIgnored | intro-detection/audio-scan.py:90-91 | in a small file, the bytes of a trailing partial word do not change the hash |
| MovieHash.HashTextReadsBack | intro-detection/audio-scan.py:106 | the hash text is exactly 16 lower-case hex digits and reads back as the hash |
| AudioStream.Decode | intro-detection/audio-scan.py:229-250 | a decode starting at or past the audio's end yields no bytes |
| AudioStream.PullAt | intro-detection/audio-scan.py:223-283 | one pull of the generator: a missing file at the first pull, the end past a known duration, a failed, empty or odd decode, or a window at 3 * k seconds; WindowStarts, WindowSamples and FirstDecodeFailureEndsQuietly state its cases |
| AudioStream.WindowsFrom | intro-detection/audio-scan.py:196-283 | the windows the generator yields from pull k on; WindowStarts, WindowSamples, WindowsBeforeKnownEnd and WindowsBeforeAudioEnd state their starts, samples and finiteness |
| AudioStream.WindowStream.constructor | intro-detection/audio-scan.py:220-221 | a new generator has chunk_num 0 and has not stopped |
| AudioStream.WindowStream.Next | intro-detection/audio-scan.py:223-283 | one resumption yields the window at chunk_start = 3 * chunk_num or stops for good; chunk_num counts the yields |
| AudioStream.WindowStarts | intro-detection/audio-scan.py:277-279 | the i-th yielded window starts at 3 * i seconds |
| AudioStream.WindowSamples | intro-detection/audio-scan.py:242-277 | each yielded window comes from a successful, non-empty decode at its start, and its samples are those bytes read as s16le |
| AudioStream.WindowsBeforeKnownEnd | intro-detection/audio-scan.py:225-226 | with a known non-zero duration, every window starts before it |
| AudioStream.FirstDecodeFailureEndsQuietly | intro-detection/audio-scan.py:252-283 | a failed, empty or odd first decode ends the stream with no window and no error |
| AudioStream.WindowsBeforeAudioEnd | intro-detection/audio-scan.py:260-262 | no window starts at or after the end of the audio, so the stream is finite |
| Correlation.ComputeCorrelation | intro-detection/audio-scan.py:157-178 | an empty chromagram gives no scores; otherwise there are 12 × (frame difference) + 1 scores, as scipy's "valid" mode gives whichever input is longer |
| Correlation.ArgMax | intro-detection/audio-scan.py:425-426 | np.argmax gives the first index of a maximal score |
| Correlation.BestAlignment | intro-detection/audio-scan.py:413-433 | a peak exists exactly when the window has at least the intro's frames; its score is a maximal correlation value, and its offset lies between 0 and the window's spare frames in seconds |
| Correlation.PeakFrameInRange | intro-detection/audio-scan.py:431-432 | `index // 12` of any valid alignment names a frame offset within the window's spare frames |
| Correlation.PeakIsFirstMaximum | intro-detection/audio-scan.py:425-426 | every alignment before the peak scores strictly less |
| Refinement.IntroDuration | intro-detection/audio-scan.py:395 | the intro duration is non-negative |
| Refinement.Max0 | intro-detection/audio-scan.py:288 | max(0, x) is the larger of the two |
| Refinement.SnippetAudio | intro-detection/audio-scan.py:286-316 | an available snippet has at least one sample |
| Refinement.SubWindowStart | intro-detection/audio-scan.py:349-386 | every sub-window start is non-negative |
| Refinement.SubWindowBounds | intro-detection/audio-scan.py:352-358 | sub-window k spans samples [11025k, 11025k + intro samples), and the loop test holds exactly when that span ends before the snippet does |
| Refinement.RefineFrom | intro-detection/audio-scan.py:352-386 | the sliding loop from sub-window k on; RefineIsBestOfExamined states that it keeps the best examined pair and ExaminedShape which pairs it examines |
| Refinement.SubWindowSlice | intro-detection/audio-scan.py:360-369 | loop-proof step: the slice the loop cuts has the peak of sub-window k |
| Refinement.RefineStep | intro-detection/audio-scan.py:364-386 | loop-proof step, one unfolding of RefineFrom: a sub-window with a peak updates the pair only on a strict improvement and stops the loop at a score of 0.8 or more |
| Refinement.RefineSkip | intro-detection/audio-scan.py:364 | loop-proof step, one unfolding of RefineFrom: a sub-window without a peak leaves the pair and moves on |
| Refinement.RefineMatchLocation | intro-detection/audio-scan.py:318-388 | the method computes the refinement's (time, score) |
| Refinement.Refined | intro-detection/audio-scan.py:318-388 | the whole refinement as a value; RefinedResult, RefinedScoreNonNegative and SnippetRequest state its result and its one decoder request |
| Refinement.SlideSubWindows | intro-detection/audio-scan.py:345-388 | the sliding loop gives the pair the specification of the loop keeps |
| Refinement.BestOfIsMaximum | intro-detection/audio-scan.py:376-378 | the kept pair's score is at least the start score and every candidate's score, and the pair is the start or a candidate |
| Refinement.BestOfKeepsStart | intro-detection/audio-scan.py:376 | when no candidate beats the start score, the start pair stays |
| Refinement.RefineIsBestOfExamined | intro-detection/audio-scan.py:352-386 | the loop keeps the best of the pairs it examines |
| Refinement.ExaminedShape | intro-detection/audio-scan.py:374-384 | every examined time is at or after the clamped snippet start, and only the last pair may score 0.8 or more |
| Refinement.RefinedResult | intro-detection/audio-scan.py:318-388 | without a snippet the result is (anchor, 0.0); otherwise the score is non-negative and maximal among the examined pairs, the anchor stays when none scores above zero, and otherwise the result is an examined pair at or after max(0, anchor − 15) |
| Refinement.RefinedScoreNonNegative | intro-detection/audio-scan.py:346-378 | the refined score is never negative, and a positive one has a time at or after zero |
| Refinement.SnippetRequest | intro-detection/audio-scan.py:332-338 | the refinement depends on the decoder only through one clamped request for 2·15 + intro + 0.5 seconds |
| IntroSearch.SearchOver | intro-detection/audio-scan.py:406-476 | the scan never takes more windows than the stream has |
| IntroSearch.StepWindow | intro-detection/audio-scan.py:407-475 | the scan's step on one window; UpdateOnlyImproves, RefinementOnlyOnNewBest, StepKeepsSane, CoarseExitPairing and MatchExits state how it updates the best pair and when it returns |
| IntroSearch.Search | intro-detection/audio-scan.py:391-485 | the whole of find_intro_in_video as a value; SearchResult, ExhaustedScan, MatchExits and DecidedByConsumedWindows state its error order, its exhaustion and its early returns |
| IntroSearch.FindIntroInVideo | intro-detection/audio-scan.py:391-485 | the method, pulling windows one at a time, computes the search's verdict |
| IntroSearch.ScanWindow | intro-detection/audio-scan.py:407-475 | the method's step on one window agrees with the specification of the step |
| IntroSearch.SearchOverFirst | intro-detection/audio-scan.py:406-418 | loop-proof step, one unfolding of SearchOver: the scan of a window then more windows is that window's early return, or the rest scanned from its new state |
| IntroSearch.UpdateOnlyImproves | intro-detection/audio-scan.py:436-450 | the best score never drops, and the pair changes only on a strict improvement that records a time |
| IntroSearch.ShortWindowKeepsState | intro-detection/audio-scan.py:416-418 | one unfolding of StepWindow: a window with fewer frames than the intro leaves the state alone |
| IntroSearch.RefinementOnlyOnNewBest | intro-detection/audio-scan.py:436-446 | refinement runs exactly for a window that sets a new best of at least 0.42, anchored at that window's match time |
| IntroSearch.StepKeepsSane | intro-detection/audio-scan.py:402-475 | one window keeps the score non-negative, the time None exactly while the score is 0.0, and a recorded time non-negative; a returned match has a time at or after zero |
| IntroSearch.CoarseExitPairing | intro-detection/audio-scan.py:465-475 | the coarse exit returns the best time after this window with this window's own peak score, which reaches the threshold and may lie below the best score |
| IntroSearch.RefinedExitPairing | intro-detection/audio-scan.py:448-463 | the refined exit returns the best (time, score) pair held after the refinement, whose refined score reached 0.8; the returned score is at least the refined one |
| IntroSearch.MatchExits | intro-detection/audio-scan.py:453-475 | both early returns save [time, time + duration] with the returned score; the refined one has a score of at least 0.8, the coarse one at least the threshold |
| IntroSearch.DecidedByConsumedWindows | intro-detection/audio-scan.py:406-475 | an early return depends only on the windows consumed before it |
| IntroSearch.ExhaustedScan | intro-detection/audio-scan.py:477-485 | on exhaustion every window was consumed, the best score bounds every window's peak, and no time is recorded exactly when no peak scored above zero |
| IntroSearch.NoneTimestampNeedsNonPositiveThreshold | intro-detection/audio-scan.py:466-469 | a coarse exit without a recorded time, whose formatting raises TypeError, needs a threshold of at most zero |
| IntroSearch.SearchResult | intro-detection/audio-scan.py:391-485 | a missing intro file is reported first and a missing video next; otherwise the scan of the stream's windows decides the result |
| FilenameParsing.MatchLength | intro-detection/tmdb_lookup.py:69-77 | a quality-pattern match stays inside the text |
| FilenameParsing.DotsToSpaces | intro-detection/tmdb_lookup.py:80 | the length is kept, no '.' or '_' remains, each of them became a space at its own index, and every other character keeps its index |
| FilenameParsing.DropSpaces | intro-detection/tmdb_lookup.py:82 | dropping a whitespace run leaves a text that starts with a non-space |
| FilenameParsing.CleanTitle | intro-detection/tmdb_lookup.py:66-85 | the loop over the quality patterns, then the substitutions and the strip, computes the cleaned title |
| FilenameParsing.CleanedTitle | intro-detection/tmdb_lookup.py:66-85 | the cleaned title; CleanedTitleShape states its shape and PlainTitleUnchanged its fixed points |
| FilenameParsing.QualityPatternsNeverMatchEmpty | intro-detection/tmdb_lookup.py:69-75 | no quality pattern matches the empty text |
| FilenameParsing.CollapsedSpaces | intro-detection/tmdb_lookup.py:82 | collapsing keeps every other character, leaves single spaces for whitespace, and keeps emptiness and a leading space |
| FilenameParsing.StripIsSlice | intro-detection/tmdb_lookup.py:84 | strip(' -') gives a slice whose ends are neither ' ' nor '-' |
| FilenameParsing.CleanedTitleShape | intro-detection/tmdb_lookup.py:76-85 | a cleaned title has no '.' or '_', only single spaces for whitespace, and no ' ' or '-' at either end |
| FilenameParsing.PatternStart | intro-detection/tmdb_lookup.py:69-75 | every quality pattern starts with a class of the characters 7, 1, 2, 4 and the letters a b d h p r w x in either case |
| FilenameParsing.RemoveUnmatched | intro-detection/tmdb_lookup.py:77 | a pattern whose first class occurs nowhere removes nothing |
| FilenameParsing.QualityFree | intro-detection/tmdb_lookup.py:76-77 | a title with no quality-pattern start character passes the pattern loop unchanged |
| FilenameParsing.PlainTitleUnchanged | intro-detection/tmdb_lookup.py:66-85 | a title with none of those characters, no whitespace, '.' or '_', and no ' ' or '-' at its ends is its own cleaned title |
| FilenameParsing.LastIndexOf | intro-detection/tmdb_lookup.py:23 | the index found holds the character and none follows it |
| FilenameParsing.Basename | intro-detection/tmdb_lookup.py:22 | the base name contains no '/' |
| FilenameParsing.SepRun | intro-detection/tmdb_lookup.py:27 | the greedy `[\s\-\.\_]+` run is maximal |
| FilenameParsing.SeasonEpisode | intro-detection/tmdb_lookup.py:27-32 | season and episode have at most two digits |
| FilenameParsing.LazyMatch | intro-detection/tmdb_lookup.py:27-28 | a lazy `^(.+?)` match ends its group where the rest of the pattern matches |
| FilenameParsing.LazyMatchIsShortest | intro-detection/tmdb_lookup.py:27-28 | the lazy group ends at the first position where it can, and none fits when the search fails |
| FilenameParsing.RuleOrder | intro-detection/tmdb_lookup.py:25-64 | the unfolding of ParseName, rule by rule: the four rules are tried in order and the first match decides; a bare year counts only in 1900..2100; otherwise the result is unknown with the cleaned whole name |
| FilenameParsing.ParseName | intro-detection/tmdb_lookup.py:25-64 | the four rules on a stem; RuleOrder states their order and year range, TvNumbersInRange the tv numbers |
| FilenameParsing.ParseFilename | intro-detection/tmdb_lookup.py:20-64 | parse_filename on a path; ExtensionIgnored states that directories and the extension do not matter |
| FilenameParsing.TvNumbersInRange | intro-detection/tmdb_lookup.py:31-41 | tv results have a season and an episode of at most 99 |
| FilenameParsing.ExtensionIgnored | intro-detection/tmdb_lookup.py:22-23 | a directory prefix and an extension do not change the parse |
| FilenameParsing.StemBeforeExtension | intro-detection/tmdb_lookup.py:23 | splitext drops exactly the last extension |
| FilenameParsing.BasenameAfterSlash | intro-detection/tmdb_lookup.py:22 | the base name is what follows the last '/' |
| FilenameExamples.SeasonEpisodeExample | intro-detection/tmdb_lookup.py:27-33 | "Lost.S01E02" parses as tv ("Lost", 1, 2) |
| FilenameExamples.BareYearOutOfRangeExample | intro-detection/tmdb_lookup.py:54-64 | "Film-3000" parses as unknown "Film-3000", since 3000 is outside 1900..2100 |
| FilenameExamples.BracketedAnyYearExample | intro-detection/tmdb_lookup.py:46-51 | "Film (3000)" parses as movie ("Film", 3000), since a bracketed year has no range check |
| FilenameExamples.TagInsideWordExample | intro-detection/tmdb_lookup.py:73-77 | `[aA][aA][cC]` has no word boundary and turns "Isaac" into "Is" |
| TmdbJson.GetEitherPrefersPrimary | tmdb-lookup.py:125 | a stored primary field wins even when null; the fallback is read only when the primary key is absent |
| TmdbJson.SearchRequest | intro-detection/tmdb_lookup.py:87-111 | the request each parse leads to; SearchParameters states its endpoint and parameters |
| TmdbJson.SearchParameters | intro-detection/tmdb_lookup.py:87-111 | every search sends the title as "query"; only a movie search with a non-zero year sends "year"; the endpoint follows the parse type |
| TmdbJson.IntTextHasNoColon | intro-detection/tmdb_lookup.py:126 | str() of a number has no ':' |
| TmdbJson.IntTextReadsBack | intro-detection/tmdb_lookup.py:126 | str() of a non-negative number reads back as the number |
| TmdbJson.SplitColons | intro-detection/tmdb_lookup.py:126 | split(':') gives at least one part |
| TmdbJson.SplitJoined | intro-detection/tmdb_lookup.py:126 | split(':') undoes a join of colon-free parts |
| TmdbSelect.NoResultsNoId | intro-detection/tmdb_lookup.py:120-148 | an empty hit list gives None, whatever was parsed |
| TmdbSelect.FindTmdbId | intro-detection/tmdb_lookup.py:113-148 | find_tmdb_id on the search hits; NoResultsNoId, ResultsGiveIdOrKeyError, FirstHitDecides, MovieGivesFirstId, JoinedExactlyWhenBothTruthy and KeyErrorsOfTheEpisodeBranch state its results and errors |
| TmdbSelect.ResultsGiveIdOrKeyError | intro-detection/tmdb_lookup.py:122-147 | a non-empty hit list gives an id, or a KeyError for a key among id, season and episode that the first hit lacks |
| TmdbSelect.FirstHitDecides | intro-detection/tmdb_lookup.py:123-146 | only the first hit matters, and the tv and unknown branches agree |
| TmdbSelect.MovieGivesFirstId | intro-detection/tmdb_lookup.py:131-135 | a movie gives the first hit's "id", or a KeyError when it has none |
| TmdbSelect.JoinedExactlyWhenBothTruthy | intro-detection/tmdb_lookup.py:124-128 | the text id is returned exactly when season and episode are both truthy; otherwise the raw id is |
| TmdbSelect.KeyErrorsOfTheEpisodeBranch | intro-detection/tmdb_lookup.py:124-128 | a missing season raises; a missing episode raises only after a truthy season; a falsy season skips the episode and reads the id |
| TmdbSelect.JoinedIdReadsBack | intro-detection/tmdb_lookup.py:125-126 | the text id of non-negative fields splits into three numerals that read back as id, season and episode |
| TmdbMatch.NoResultsNoMatch | tmdb-lookup.py:118-167 | an empty hit list gives None, whatever was parsed |
| TmdbMatch.FindTmdbMatch | tmdb-lookup.py:111-167 | find_tmdb_id on the search hits; NoResultsNoMatch, OnlyMissingIdRaises, ConfidenceByHitCount, EpisodeFromFileName, UnknownFollowsMediaType and NamesFallBack state its results and errors |
| TmdbMatch.OnlyMissingIdRaises | tmdb-lookup.py:122-165 | a KeyError for "id" is raised exactly when a record is built from a first hit without "id" |
| TmdbMatch.ConfidenceByHitCount | tmdb-lookup.py:118-142 | a tv or movie parse with hits gives a record of its type, "high" exactly for a single hit and "medium" otherwise |
| TmdbMatch.EpisodeFromFileName | tmdb-lookup.py:122-130 | a tv match's season and episode are the parsed ones, not the hit's |
| TmdbMatch.UnknownFollowsMediaType | tmdb-lookup.py:144-167 | an unknown parse gives a "low" record shaped by media_type, or None for any other media_type |
| TmdbMatch.NamesFallBack | tmdb-lookup.py:125-162 | the name and title fields fall back to the original ones only when their key is absent |
| Utf8.Leading | vlc-plugin/export_db_cache.py:45-46 | a decoded leading sequence has 1 to 4 bytes and names a Unicode scalar value |
| Utf8.EncodeChar | vlc-plugin/export_db_cache.py:46 | a character encodes to 1 to 4 bytes |
| Utf8.Decode | vlc-plugin/export_db_cache.py:45-46 | strict UTF-8 decoding; DecodeEncode and EncodeDecode state that it is the inverse of encoding on every text and on every byte string it accepts |
| Utf8.LeadingOfEncoding | vlc-plugin/export_db_cache.py:46 | decoding reads the encoding of a character back as that character |
| Utf8.DecodeEncode | vlc-plugin/export_db_cache.py:46 | decoding the encoding of any text gives the text |
| Utf8.LeadingIsEncoding | vlc-plugin/export_db_cache.py:46 | every accepted leading sequence is the encoding of the character it decodes to |
| Utf8.EncodeDecode | vlc-plugin/export_db_cache.py:46 | bytes that decode are the encoding of their decoded text |
| Utf8.AsciiDecodes | vlc-plugin/export_db_cache.py:46 | ASCII bytes always decode, one character per byte |
| ExportCache.ExportDatabaseToJson | vlc-plugin/export_db_cache.py:20-80 | the method's loop over the rows computes the export's result |
| ExportCache.ToFloat | vlc-plugin/export_db_cache.py:52-55 | float() succeeds exactly on an integer or a real, and raises TypeError exactly on None |
| ExportCache.ToEntry | vlc-plugin/export_db_cache.py:42-56 | the entry built from one row; EntryConversion states when it succeeds and what each field becomes |
| ExportCache.Entries | vlc-plugin/export_db_cache.py:41-58 | the entries list in fetch order; EntriesPerRow and ErrorPersists state its length, contents and first error |
| ExportCache.Lookup | vlc-plugin/export_db_cache.py:60-64 | a lookup map built by later writes; LookupKeys and LookupLastWrite state its keys and values |
| ExportCache.Export | vlc-plugin/export_db_cache.py:20-80 | the export's outcome as a value; ExportOutcome states the missing-database result and when the export succeeds |
| ExportCache.ErrorPersists | vlc-plugin/export_db_cache.py:41-56 | a conversion error ends the export with that error |
| ExportCache.EntryConversion | vlc-plugin/export_db_cache.py:42-56 | a row converts exactly when its hash decodes and its times, score and outro are numbers or the allowed exceptions; bytes hashes are UTF-8 decoded, a bytes score is 0.0, a None outro is 0.0, the rest copied or converted |
| ExportCache.EntriesPerRow | vlc-plugin/export_db_cache.py:41-58 | one entry per row in fetch order, or the error of the first row that fails |
| ExportCache.ExportOutcome | vlc-plugin/export_db_cache.py:23-74 | a missing database returns False; otherwise the export succeeds exactly when every row converts, with version 1, one entry per row and the two lookup maps |
| ExportCache.LookupKeys | vlc-plugin/export_db_cache.py:60-64 | the keys of each map are exactly the truthy hashes, or the truthy file names |
| ExportCache.LookupLastWrite | vlc-plugin/export_db_cache.py:60-64 | each key holds the entry of the last row written under it |
| ExportCache.LowestIdWins | vlc-plugin/export_db_cache.py:31-64 | with rows fetched by descending id, each key holds the entry of the lowest-id row filed under it |

`FilenameParsing` is cited against `intro-detection/tmdb_lookup.py:20-85`. Its twin `tmdb-lookup.py:18-83` has the same code. `TmdbJson.SearchParameters` covers both scripts' search functions: `intro-detection/tmdb_lookup.py:87-111` and `tmdb-lookup.py:85-109`.

## Left out

- Floating point: reals are exact. Scores, times and the sub-window bounds have no rounding. `int()` truncation, `//`, `%` and `& 0xFFFFFFFFFFFFFFFF` are written out.
- librosa and scipy:
  - `chroma_cqt`, `normalize` and `load`, and the z-scoring and `correlate` (`audio-scan.py:137-178`, `189`), are parameters of the model (`Correlation.Features`).
  - Only their shapes and the ordering of scores are used.
  - `1e-8` and the division by the reference length are inside the `correlate` parameter.
- ffmpeg and ffprobe: decoding is one oracle `(start, duration) -> bytes or failure` plus the audio's length. A decode at or past that length yields no bytes. That length is what makes the window loop terminate. A decoder that yields bytes forever, past any length, is not modelled.
- Subprocess and file errors other than those named are not modelled: `OSError`, `Popen` failures, and a video that disappears between calls.
- SQLite:
  - the module-level connection and table creation (`audio-scan.py:31-45`);
  - `save_intro_timestamps`: its call is recorded as the `saved` Record(start, start + intro duration, score) of a Match; the path, hash, size and outro length it also passes are not modelled;
  - `update_database` and the `main` functions.
- The exporter's database is its list of fetched rows: `Database.Present(rows)` in the row order of `ORDER BY id DESC`.
- The exporter's `json.dump` and the file write are not modelled, nor are JSON's stringification of non-text keys and its output format. The output is the dictionary before it is written.
- HTTP (`requests`, `raise_for_status`), environment variables, credentials (`get_auth_header`, `get_api_key`), argparse, `print` and `sys.stderr` are not modelled. Search results are a parameter, and a request is modelled without its credentials.
- `setup.py` is packaging only.
- FilenameParsing: `\d` is modelled as ASCII 0-9 only, and `\s` as Python's `str.isspace()` on the characters Dafny can name. Unicode digits in other scripts, which Python's `\d` also matches, are not modelled.
- ExportCache.ToFloat: `float()` of a text or bytes cell is always ValueError in the model. Python parses numeric text such as "1.5", and sqlite REAL/INTEGER columns never hold such text here.
- ExportCache.Lookup: Python treats the keys `1` and `1.0` as one dictionary key. The model keeps `VInt(1)` and `VReal(1.0)` apart.
- Non-scalar JSON values are not modelled: floats, arrays and objects in a TMDB hit. Hits hold null, booleans, integers and strings.
- TmdbJson.PyStr: `str()` of a JSON string is the string itself, and of an integer its decimal text. `str()` of floats is not modelled, because hits hold no floats here.
