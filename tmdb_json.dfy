/** What the two TMDB lookup scripts share around a search: the JSON values of a hit, Python's
    truthiness and str() on them, dictionary lookups, and the query parameters of a search. */
module TmdbJson {
  import opened Wrappers
  import opened Numerals
  import opened FilenameParsing

  /** A scalar JSON value of a search hit, as response.json() decodes it. */
  datatype Json = JNull | JBool(b: bool) | JInt(i: int) | JStr(s: string)

  /** One entry of the "results" list: a JSON object. */
  type Hit = map<string, Json>

  /** Python truthiness: None, False, 0 and "" are false. */
  predicate Truthy(v: Json)
  {
    match v
    case JNull => false
    case JBool(b) => b
    case JInt(i) => i != 0
    case JStr(s) => s != []
  }

  /** str(v). */
  function PyStr(v: Json): string
  {
    match v
    case JNull => "None"
    case JBool(b) => if b then "True" else "False"
    case JInt(i) => IntToString(i)
    case JStr(s) => s
  }

  /** The KeyError that `best[key]` raises on a missing key. */
  datatype KeyError = KeyError(key: string)

  /** `d[key]`. */
  function Lookup(d: Hit, key: string): Result<Json, KeyError>
  {
    if key in d then Ok(d[key]) else Err(KeyError(key))
  }

  /** `d.get(key, default)`. */
  function GetOr(d: Hit, key: string, default: Json): Json
  {
    if key in d then d[key] else default
  }

  /** `d.get(primary, d.get(fallback))`. */
  function GetEither(d: Hit, primary: string, fallback: string): Json
  {
    GetOr(d, primary, GetOr(d, fallback, JNull))
  }

  /** A stored field wins even when it is null; the fallback is read only when the primary key is
      absent, and None comes out only when neither key holds anything else. */
  lemma GetEitherPrefersPrimary(d: Hit, primary: string, fallback: string)
    ensures primary in d ==> GetEither(d, primary, fallback) == d[primary]
    ensures primary !in d && fallback in d ==> GetEither(d, primary, fallback) == d[fallback]
    ensures GetEither(d, primary, fallback) != JNull ==>
      (primary in d && d[primary] == GetEither(d, primary, fallback))
      || (primary !in d && fallback in d && d[fallback] == GetEither(d, primary, fallback))
  {
  }

  // ---------------------------------------------------------------- search requests

  /** The three search endpoints. */
  datatype Endpoint = SearchTv | SearchMovie | SearchMulti

  /** A search: its endpoint and its query parameters (the credentials are not modelled). */
  datatype Request = Request(endpoint: Endpoint, params: map<string, Json>)

  /** search_tv_show / search_movie / search_multi as find_tmdb_id calls them for a parse. The
      movie search adds "year" only when `if year:` holds, so a parsed year 0 is not sent. */
  function SearchRequest(p: Parsed): Request
  {
    match p
    case Tv(title, _, _) => Request(SearchTv, map["query" := JStr(title)])
    case Movie(title, year) =>
      var base := map["query" := JStr(title)];
      Request(SearchMovie, if Truthy(JInt(year)) then base["year" := JInt(year)] else base)
    case Unknown(title) => Request(SearchMulti, map["query" := JStr(title)])
  }

  /** Every search sends the parsed title as "query"; only a movie search with a non-zero year
      sends "year", and then it is the parsed year; nothing else is sent. */
  lemma SearchParameters(p: Parsed)
    ensures "query" in SearchRequest(p).params && SearchRequest(p).params["query"] == JStr(p.title)
    ensures "year" in SearchRequest(p).params <==> p.Movie? && p.year != 0
    ensures "year" in SearchRequest(p).params ==> SearchRequest(p).params["year"] == JInt(p.year)
    ensures SearchRequest(p).params.Keys <= {"query", "year"}
    ensures SearchRequest(p).endpoint == SearchTv <==> p.Tv?
    ensures SearchRequest(p).endpoint == SearchMovie <==> p.Movie?
  {
  }

  // ---------------------------------------------------------------- str() of ids

  /** No ':' appears in str() of a number. */
  lemma IntTextHasNoColon(i: int)
    ensures ':' !in IntToString(i)
  {
    var t := Digits(if i < 0 then -i else i, 10);
    assert forall j :: 0 <= j < |t| ==> t[j] != ':';
    if i < 0 {
      assert forall j :: 0 <= j < |"-" + t| ==> ("-" + t)[j] == '-' || ("-" + t)[j] == t[j - 1];
    }
  }

  /** `t` is a decimal numeral of `n`. */
  predicate ReadsAs(t: string, n: nat)
  {
    && (forall j :: 0 <= j < |t| ==> IsDecimalDigit(t[j]))
    && ParseDigits(t, 10) == n
  }

  /** str() of a non-negative number is its decimal numeral, which reads back as the number. */
  lemma IntTextReadsBack(n: nat)
    ensures ReadsAs(IntToString(n), n)
  {
    DigitsAreDecimal(n);
    DigitsRoundTrip(n, 10);
  }

  /** `s.split(':')`. */
  function SplitColons(s: string): (parts: seq<string>)
    ensures |parts| >= 1
    decreases |s|
  {
    if ':' !in s then [s]
    else
      var k := FirstColon(s);
      [s[..k]] + SplitColons(s[k + 1..])
  }

  function FirstColon(s: string): (k: nat)
    requires ':' in s
    ensures k < |s| && s[k] == ':' && ':' !in s[..k]
  {
    if s[0] == ':' then 0
    else
      assert s == [s[0]] + s[1..];
      var k := FirstColon(s[1..]);
      assert s[..k + 1] == [s[0]] + s[1..][..k];
      k + 1
  }

  /** Joining colon-free parts with ':' is undone by split(':'). */
  lemma {:induction false} SplitJoined(a: string, rest: string)
    requires ':' !in a
    ensures SplitColons(a + ":" + rest) == [a] + SplitColons(rest)
  {
    var s := a + ":" + rest;
    assert s[|a|] == ':';
    assert s[..|a|] == a;
    var k := FirstColon(s);
    assert k == |a|;
    assert s[k + 1..] == rest;
  }

  lemma SplitPlain(a: string)
    requires ':' !in a
    ensures SplitColons(a) == [a]
  {
  }
}
