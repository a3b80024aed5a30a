/** find_tmdb_id of intro-detection/tmdb_lookup.py: the id it returns for a parse and the
    "results" list of the search SearchRequest describes. */
module TmdbSelect {
  import opened Wrappers
  import opened Numerals
  import opened FilenameParsing
  import opened TmdbJson

  /** What find_tmdb_id returns: the joined "id:season:episode" text or the raw `best["id"]`. */
  datatype TmdbId = Joined(text: string) | Raw(value: Json)

  /** `return best['id']`. */
  function IdOf(best: Hit): Result<Option<TmdbId>, KeyError>
  {
    match Lookup(best, "id")
    case Err(e) => Err(e)
    case Ok(id) => Ok(Some(Raw(id)))
  }

  /** The tv and multi-search branch for a non-empty list: `best["season"] and best["episode"]`
      short-circuits, so "episode" is looked up only after a truthy season, and the joined text
      reads `best[x]` for "id", "season", "episode" in that order. */
  function EpisodeIdOf(best: Hit): Result<Option<TmdbId>, KeyError>
  {
    match Lookup(best, "season")
    case Err(e) => Err(e)
    case Ok(season) =>
      if !Truthy(season) then IdOf(best)
      else match Lookup(best, "episode")
        case Err(e) => Err(e)
        case Ok(episode) =>
          if !Truthy(episode) then IdOf(best)
          else match Lookup(best, "id")
            case Err(e) => Err(e)
            case Ok(id) => Ok(Some(Joined(PyStr(id) + ":" + PyStr(season) + ":" + PyStr(episode))))
  }

  /** find_tmdb_id after the search, with the results passed in. */
  function FindTmdbId(p: Parsed, results: seq<Hit>): Result<Option<TmdbId>, KeyError>
  {
    if results == [] then Ok(None)
    else if p.Movie? then IdOf(results[0])
    else EpisodeIdOf(results[0])
  }

  /** An empty result list gives None, whatever was parsed. */
  lemma NoResultsNoId(p: Parsed)
    ensures FindTmdbId(p, []) == Ok(None)
  {
  }

  /** A non-empty result list never gives None: an id is returned or a KeyError raised. */
  lemma ResultsGiveIdOrKeyError(p: Parsed, results: seq<Hit>)
    requires results != []
    ensures FindTmdbId(p, results).Ok? ==> FindTmdbId(p, results).value.Some?
    ensures FindTmdbId(p, results).Err? ==> FindTmdbId(p, results).error.key in {"id", "season", "episode"}
    ensures FindTmdbId(p, results).Err? ==> FindTmdbId(p, results).error.key !in results[0]
  {
  }

  /** Only the first hit matters; the tv and unknown branches behave alike and ignore the title. */
  lemma FirstHitDecides(p: Parsed, q: Parsed, results: seq<Hit>, others: seq<Hit>)
    requires results != [] && others != [] && results[0] == others[0]
    requires p.Movie? == q.Movie?
    ensures FindTmdbId(p, results) == FindTmdbId(q, others)
  {
  }

  /** A movie gives `results[0]['id']`, a KeyError when the first hit has no "id". */
  lemma MovieGivesFirstId(title: string, year: nat, results: seq<Hit>)
    requires results != []
    ensures "id" in results[0] ==> FindTmdbId(Movie(title, year), results) == Ok(Some(Raw(results[0]["id"])))
    ensures "id" !in results[0] ==> FindTmdbId(Movie(title, year), results) == Err(KeyError("id"))
  {
  }

  /** For a tv or unknown parse whose first hit has id, season and episode, the text form comes
      out exactly when season and episode are both truthy, and otherwise the raw id. */
  lemma JoinedExactlyWhenBothTruthy(p: Parsed, results: seq<Hit>)
    requires !p.Movie? && results != []
    requires "id" in results[0] && "season" in results[0] && "episode" in results[0]
    ensures var best := results[0];
      FindTmdbId(p, results).Ok? && FindTmdbId(p, results).value.Some?
      && (FindTmdbId(p, results).value.value.Joined? <==> Truthy(best["season"]) && Truthy(best["episode"]))
      && (FindTmdbId(p, results).value.value.Joined? ==>
            FindTmdbId(p, results).value.value.text
              == PyStr(best["id"]) + ":" + PyStr(best["season"]) + ":" + PyStr(best["episode"]))
      && (FindTmdbId(p, results).value.value.Raw? ==> FindTmdbId(p, results).value.value.value == best["id"])
  {
  }

  /** The short-circuit: a missing "season" raises, and so does a missing "episode" after a
      truthy season; after a falsy season "episode" is never read. */
  lemma KeyErrorsOfTheEpisodeBranch(p: Parsed, results: seq<Hit>)
    requires !p.Movie? && results != []
    ensures "season" !in results[0] ==> FindTmdbId(p, results) == Err(KeyError("season"))
    ensures "season" in results[0] && Truthy(results[0]["season"]) && "episode" !in results[0] ==>
      FindTmdbId(p, results) == Err(KeyError("episode"))
    ensures "season" in results[0] && !Truthy(results[0]["season"]) ==>
      FindTmdbId(p, results) == IdOf(results[0])
  {
  }

  /** With non-negative integer fields, the text form splits at ':' into three numerals that read
      back as id, season and episode. */
  lemma JoinedIdReadsBack(id: nat, season: nat, episode: nat)
    ensures var parts := SplitColons(IntToString(id) + ":" + IntToString(season) + ":" + IntToString(episode));
      |parts| == 3 && ReadsAs(parts[0], id) && ReadsAs(parts[1], season) && ReadsAs(parts[2], episode)
  {
    var a, b, c := IntToString(id), IntToString(season), IntToString(episode);
    IntTextHasNoColon(id);
    IntTextHasNoColon(season);
    IntTextHasNoColon(episode);
    IntTextReadsBack(id);
    IntTextReadsBack(season);
    IntTextReadsBack(episode);
    assert a + ":" + b + ":" + c == a + ":" + (b + ":" + c);
    SplitJoined(a, b + ":" + c);
    SplitJoined(b, c);
    SplitPlain(c);
  }
}
