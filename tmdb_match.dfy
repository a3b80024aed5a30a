/** find_tmdb_id of tmdb-lookup.py: the match record it builds from a parse and the "results"
    list of the search SearchRequest describes. */
module TmdbMatch {
  import opened Wrappers
  import opened FilenameParsing
  import opened TmdbJson

  /** The "confidence" field. */
  datatype Confidence = High | Medium | Low

  /** The returned dictionary. A tv match found through the tv search carries the parsed season
      and episode; one found through the multi-search has no such keys. */
  datatype Match =
    | ShowMatch(id: Json, name: Json, firstAirDate: Json, episode: Option<(nat, nat)>, confidence: Confidence)
    | FilmMatch(id: Json, title: Json, releaseDate: Json, confidence: Confidence)

  /** `"high" if len(results) == 1 else "medium"`. */
  function Certainty(results: seq<Hit>): Confidence
  {
    if |results| == 1 then High else Medium
  }

  /** The tv dictionary: `best["id"]` is read first and alone can raise. */
  function ShowFrom(best: Hit, episode: Option<(nat, nat)>, confidence: Confidence): Result<Option<Match>, KeyError>
  {
    match Lookup(best, "id")
    case Err(e) => Err(e)
    case Ok(id) =>
      Ok(Some(ShowMatch(id, GetEither(best, "name", "original_name"), GetOr(best, "first_air_date", JNull),
                        episode, confidence)))
  }

  /** The movie dictionary. */
  function FilmFrom(best: Hit, confidence: Confidence): Result<Option<Match>, KeyError>
  {
    match Lookup(best, "id")
    case Err(e) => Err(e)
    case Ok(id) =>
      Ok(Some(FilmMatch(id, GetEither(best, "title", "original_title"), GetOr(best, "release_date", JNull),
                        confidence)))
  }

  /** find_tmdb_id after the search, with the results passed in. */
  function FindTmdbMatch(p: Parsed, results: seq<Hit>): Result<Option<Match>, KeyError>
  {
    if results == [] then Ok(None)
    else
      var best := results[0];
      match p
      case Tv(_, season, episode) => ShowFrom(best, Some((season, episode)), Certainty(results))
      case Movie(_, _) => FilmFrom(best, Certainty(results))
      case Unknown(_) =>
        var mediaType := GetOr(best, "media_type", JNull);
        if mediaType == JStr("tv") then ShowFrom(best, None, Low)
        else if mediaType == JStr("movie") then FilmFrom(best, Low)
        else Ok(None)
  }

  /** What kind of match a multi-search hit stands for, by its "media_type". */
  function MediaKind(best: Hit): Option<bool>
  {
    var mediaType := GetOr(best, "media_type", JNull);
    if mediaType == JStr("tv") then Some(true) else if mediaType == JStr("movie") then Some(false) else None
  }

  /** An empty result list gives None, whatever was parsed. */
  lemma NoResultsNoMatch(p: Parsed)
    ensures FindTmdbMatch(p, []) == Ok(None)
  {
  }

  /** A KeyError is raised exactly when a record would be built from a first hit without "id". */
  lemma OnlyMissingIdRaises(p: Parsed, results: seq<Hit>)
    ensures FindTmdbMatch(p, results).Err? <==>
      results != [] && "id" !in results[0] && (!p.Unknown? || MediaKind(results[0]).Some?)
    ensures FindTmdbMatch(p, results).Err? ==> FindTmdbMatch(p, results).error == KeyError("id")
  {
  }

  /** A tv or movie parse with hits gives a record of its own type, "high" confidence exactly when
      there is a single hit and "medium" otherwise, and the id of the first hit. */
  lemma ConfidenceByHitCount(p: Parsed, results: seq<Hit>)
    requires !p.Unknown? && results != [] && "id" in results[0]
    ensures FindTmdbMatch(p, results).Ok? && FindTmdbMatch(p, results).value.Some?
    ensures var m := FindTmdbMatch(p, results).value.value;
      && (m.confidence == High <==> |results| == 1)
      && (m.confidence == Medium <==> |results| != 1)
      && (m.ShowMatch? <==> p.Tv?)
      && m.id == results[0]["id"]
  {
  }

  /** The season and episode of a tv match come from the parsed file name, whatever "season" or
      "episode" fields the hit carries. */
  lemma EpisodeFromFileName(title: string, season: nat, episode: nat, results: seq<Hit>)
    requires results != [] && "id" in results[0]
    ensures var r := FindTmdbMatch(Tv(title, season, episode), results);
      r.Ok? && r.value.Some? && r.value.value.ShowMatch? && r.value.value.episode == Some((season, episode))
  {
  }

  /** A multi-search hit list gives a "low" record shaped by the first hit's media_type, without
      a season or episode, and None when the media_type is neither "tv" nor "movie". */
  lemma UnknownFollowsMediaType(title: string, results: seq<Hit>)
    requires results != [] && "id" in results[0]
    ensures var r := FindTmdbMatch(Unknown(title), results);
      && r.Ok?
      && (r.value.None? <==> MediaKind(results[0]).None?)
      && (r.value.Some? ==> r.value.value.confidence == Low)
      && (r.value.Some? ==> (r.value.value.ShowMatch? <==> MediaKind(results[0]) == Some(true)))
      && (r.value.Some? && r.value.value.ShowMatch? ==> r.value.value.episode.None?)
  {
  }

  /** The name and title fields fall back to the original ones only when the key is absent. */
  lemma NamesFallBack(p: Parsed, results: seq<Hit>)
    requires results != []
    ensures var r := FindTmdbMatch(p, results);
      r.Ok? && r.value.Some? ==>
        var best := results[0];
        match r.value.value
        case ShowMatch(_, name, _, _, _) =>
          name == (if "name" in best then best["name"] else GetOr(best, "original_name", JNull))
        case FilmMatch(_, title, _, _) =>
          title == (if "title" in best then best["title"] else GetOr(best, "original_title", JNull))
  {
  }
}
