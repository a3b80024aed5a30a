/** parse_filename and clean_title, which are the same in intro-detection/tmdb_lookup.py and in
    tmdb-lookup.py. Regular expressions are modelled by what they match: each pattern becomes a
    function that says where, and with which groups, it matches. */
module FilenameParsing {
  import opened Wrappers
  import opened Numerals

  /** Python's `\s` on str: the characters for which str.isspace() holds. */
  predicate IsSpace(c: char)
  {
    var u := c as int;
    || 0x09 <= u <= 0x0D || 0x1C <= u <= 0x20 || u == 0x85 || u == 0xA0 || u == 0x1680
    || 0x2000 <= u <= 0x200A || u == 0x2028 || u == 0x2029 || u == 0x202F || u == 0x205F
    || u == 0x3000
  }

  /** The class `[\s\-\.\_]`. */
  predicate IsSep(c: char)
  {
    IsSpace(c) || c == '-' || c == '.' || c == '_'
  }

  // ---------------------------------------------------------------- clean_title

  /** One element of a quality pattern: a character class `[..]`, or an optional one `X?`. */
  datatype Atom = Class(chars: set<char>) | Optional(chars: set<char>)

  function Exactly(s: string): seq<Atom>
  {
    seq(|s|, i requires 0 <= i < |s| => Class({s[i]}))
  }

  /** `[aA]` for each lower-case ASCII letter of `s`. */
  function EitherCase(s: string): seq<Atom>
    requires forall i :: 0 <= i < |s| ==> 'a' <= s[i] <= 'z'
  {
    seq(|s|, i requires 0 <= i < |s| => Class({s[i], (s[i] as int - 32) as char}))
  }

  /** quality_patterns, in order. */
  const QualityPatterns: seq<seq<Atom>> := [
    Exactly("720p"), Exactly("1080p"), Exactly("2160p"), Exactly("4") + EitherCase("k"),
    EitherCase("hdr"), EitherCase("bluray"), EitherCase("webrip"),
    EitherCase("x") + Exactly("264"), EitherCase("x") + Exactly("265"),
    EitherCase("h") + [Optional({'.'})] + Exactly("264"),
    EitherCase("h") + [Optional({'.'})] + Exactly("265"),
    EitherCase("aac"), EitherCase("dts"), EitherCase("ac") + Exactly("3"),
    EitherCase("remux"), EitherCase("proper")
  ]

  /** The length of the match of `p` at position `i`, with backtracking: an optional class is
      tried with its character first and then without. */
  function MatchLength(p: seq<Atom>, s: string, i: nat): (r: Option<nat>)
    requires i <= |s|
    ensures r.Some? ==> i + r.value <= |s|
    decreases |p|
  {
    if p == [] then Some(0)
    else match p[0]
      case Class(cs) =>
        if i < |s| && s[i] in cs then
          match MatchLength(p[1..], s, i + 1)
          case Some(n) => Some(n + 1)
          case None => None
        else None
      case Optional(cs) =>
        var taken := if i < |s| && s[i] in cs then MatchLength(p[1..], s, i + 1) else None;
        if taken.Some? then Some(taken.value + 1) else MatchLength(p[1..], s, i)
  }

  /** `re.sub(p, '', s[i..])`: a left-to-right scan that drops each non-overlapping match. */
  function RemoveFrom(p: seq<Atom>, s: string, i: nat): string
    requires i <= |s|
    decreases |s| - i
  {
    if i == |s| then []
    else match MatchLength(p, s, i)
      case Some(n) => if n > 0 then RemoveFrom(p, s, i + n) else [s[i]] + RemoveFrom(p, s, i + 1)
      case None => [s[i]] + RemoveFrom(p, s, i + 1)
  }

  function RemoveAll(p: seq<Atom>, s: string): string
  {
    RemoveFrom(p, s, 0)
  }

  /** The title after the first `n` quality patterns were removed. */
  function WithoutQuality(title: string, n: nat): string
    requires n <= |QualityPatterns|
  {
    if n == 0 then title else RemoveAll(QualityPatterns[n - 1], WithoutQuality(title, n - 1))
  }

  /** `re.sub(r'[\._]', ' ', s)`: no '.' or '_' is left, each became a space in its place, and
      every other character stays where it was. */
  function DotsToSpaces(s: string): (r: string)
    ensures |r| == |s|
    ensures '.' !in r && '_' !in r
    ensures forall i {:trigger r[i]} :: 0 <= i < |s| && (s[i] == '.' || s[i] == '_') ==> r[i] == ' '
    ensures forall i {:trigger r[i]} :: 0 <= i < |s| && s[i] != '.' && s[i] != '_' ==> r[i] == s[i]
  {
    seq(|s|, i requires 0 <= i < |s| => if s[i] == '.' || s[i] == '_' then ' ' else s[i])
  }

  function DropSpaces(s: string): (r: string)
    ensures |r| <= |s|
    ensures r == [] || !IsSpace(r[0])
    ensures forall c :: c in r ==> c in s
  {
    if s != [] && IsSpace(s[0]) then DropSpaces(s[1..]) else s
  }

  /** `re.sub(r'\s+', ' ', s)`. */
  function CollapseSpaces(s: string): (r: string)
    decreases |s|
  {
    if s == [] then []
    else if IsSpace(s[0]) then [' '] + CollapseSpaces(DropSpaces(s[1..]))
    else [s[0]] + CollapseSpaces(s[1..])
  }

  predicate IsStripped(c: char) { c == ' ' || c == '-' }

  function StripLeft(s: string): string
  {
    if s != [] && IsStripped(s[0]) then StripLeft(s[1..]) else s
  }

  function StripRight(s: string): string
  {
    if s != [] && IsStripped(s[|s| - 1]) then StripRight(s[..|s| - 1]) else s
  }

  /** `s.strip(' -')`. */
  function Strip(s: string): string
  {
    StripRight(StripLeft(s))
  }

  /** clean_title. */
  function CleanedTitle(title: string): string
  {
    Strip(CollapseSpaces(DotsToSpaces(WithoutQuality(title, |QualityPatterns|))))
  }

  /** clean_title as written: the `for` loop rebinds `title` once per quality pattern. */
  method CleanTitle(title: string) returns (cleaned: string)
    ensures cleaned == CleanedTitle(title)
  {
    var t := title;
    for n := 0 to |QualityPatterns|
      invariant t == WithoutQuality(title, n)
    {
      t := RemoveAll(QualityPatterns[n], t);
    }
    t := DotsToSpaces(t);
    t := CollapseSpaces(t);
    cleaned := Strip(t);
  }

  /** Every quality pattern needs at least one character, so re.sub never meets an empty match. */
  lemma QualityPatternsNeverMatchEmpty(k: nat, s: string, i: nat)
    requires k < |QualityPatterns| && i <= |s|
    ensures MatchLength(QualityPatterns[k], s, i) != Some(0)
  {
    var p := QualityPatterns[k];
    assert p[0].Class?;
    if MatchLength(p, s, i) == Some(0) {
      assert false;
    }
  }

  /** Whitespace collapsing keeps every other character, leaves no whitespace but single spaces,
      and starts with a space exactly when its input does. */
  lemma {:induction false} CollapsedSpaces(s: string)
    ensures forall c :: c in CollapseSpaces(s) ==> c in s || c == ' '
    ensures forall i :: 0 <= i < |CollapseSpaces(s)| && IsSpace(CollapseSpaces(s)[i]) ==>
      CollapseSpaces(s)[i] == ' ' && (i + 1 < |CollapseSpaces(s)| ==> !IsSpace(CollapseSpaces(s)[i + 1]))
    ensures CollapseSpaces(s) != [] <==> s != []
    ensures s != [] ==> (IsSpace(CollapseSpaces(s)[0]) <==> IsSpace(s[0]))
    decreases |s|
  {
    if s != [] {
      var r := CollapseSpaces(s);
      if IsSpace(s[0]) {
        var t := DropSpaces(s[1..]);
        CollapsedSpaces(t);
        assert r == [' '] + CollapseSpaces(t);
        assert forall c :: c in t ==> c in s;
        assert forall i :: 1 <= i < |r| ==> r[i] == CollapseSpaces(t)[i - 1];
      } else {
        CollapsedSpaces(s[1..]);
        assert r == [s[0]] + CollapseSpaces(s[1..]);
        assert forall c :: c in s[1..] ==> c in s;
        assert forall i :: 1 <= i < |r| ==> r[i] == CollapseSpaces(s[1..])[i - 1];
      }
    }
  }

  /** strip(' -') returns a slice of its input whose ends are neither ' ' nor '-'. */
  lemma {:induction false} StripIsSlice(s: string)
    ensures exists lo, hi :: 0 <= lo <= hi <= |s| && Strip(s) == s[lo..hi]
    ensures Strip(s) != [] ==> !IsStripped(Strip(s)[0]) && !IsStripped(Strip(s)[|Strip(s)| - 1])
  {
    var lo := StripLeftSlice(s);
    var hi := StripRightSlice(StripLeft(s));
    assert Strip(s) == s[lo..][..hi] == s[lo..lo + hi];
  }

  lemma {:induction false} StripLeftSlice(s: string) returns (lo: nat)
    ensures lo <= |s| && StripLeft(s) == s[lo..]
    ensures StripLeft(s) != [] ==> !IsStripped(StripLeft(s)[0])
    decreases |s|
  {
    if s != [] && IsStripped(s[0]) {
      var k := StripLeftSlice(s[1..]);
      lo := k + 1;
    } else {
      lo := 0;
    }
  }

  lemma {:induction false} StripRightSlice(s: string) returns (hi: nat)
    ensures hi <= |s| && StripRight(s) == s[..hi]
    ensures StripRight(s) != [] ==> !IsStripped(StripRight(s)[|StripRight(s)| - 1])
    decreases |s|
  {
    if s != [] && IsStripped(s[|s| - 1]) {
      hi := StripRightSlice(s[..|s| - 1]);
    } else {
      hi := |s|;
    }
  }

  /** clean_title's output has no '.' or '_', no whitespace other than single spaces, and neither
      starts nor ends with ' ' or '-'. */
  lemma CleanedTitleShape(title: string)
    ensures var r := CleanedTitle(title);
      && '.' !in r && '_' !in r
      && (forall i :: 0 <= i < |r| && IsSpace(r[i]) ==> r[i] == ' ' && (i + 1 < |r| ==> !IsSpace(r[i + 1])))
      && (r != [] ==> !IsStripped(r[0]) && !IsStripped(r[|r| - 1]))
  {
    var d := DotsToSpaces(WithoutQuality(title, |QualityPatterns|));
    CollapsedSpaces(d);
    assert '.' !in d && '_' !in d;
    StripKeepsShape(CollapseSpaces(d));
  }

  /** Strip keeps a string free of '.' and '_' and its whitespace single spaces. */
  lemma StripKeepsShape(c: string)
    requires '.' !in c && '_' !in c
    requires forall i :: 0 <= i < |c| && IsSpace(c[i]) ==> c[i] == ' ' && (i + 1 < |c| ==> !IsSpace(c[i + 1]))
    ensures var r := Strip(c);
      && '.' !in r && '_' !in r
      && (forall i :: 0 <= i < |r| && IsSpace(r[i]) ==> r[i] == ' ' && (i + 1 < |r| ==> !IsSpace(r[i + 1])))
      && (r != [] ==> !IsStripped(r[0]) && !IsStripped(r[|r| - 1]))
  {
    StripIsSlice(c);
    var lo, hi :| 0 <= lo <= hi <= |c| && Strip(c) == c[lo..hi];
    var r := Strip(c);
    assert forall i :: 0 <= i < |r| ==> r[i] == c[lo + i];
  }

  /** The characters a quality pattern can start with. */
  const QualityStarts: set<char> := {'7', '1', '2', '4', 'h', 'H', 'b', 'B', 'w', 'W', 'x', 'X', 'a', 'A', 'd', 'D', 'r', 'R', 'p', 'P'}

  /** Every quality pattern starts with a character class drawn from QualityStarts. */
  lemma PatternStart(k: nat)
    requires k < |QualityPatterns|
    ensures QualityPatterns[k] != [] && QualityPatterns[k][0].Class?
    ensures QualityPatterns[k][0].chars <= QualityStarts
  {
    if k == 0 {
      assert QualityPatterns[0][0] == Class({'7'});
    } else if k == 1 {
      assert QualityPatterns[1][0] == Class({'1'});
    } else if k == 2 {
      assert QualityPatterns[2][0] == Class({'2'});
    } else if k == 3 {
      assert QualityPatterns[3][0] == Class({'4'});
    } else if k == 4 {
      assert QualityPatterns[4][0] == Class({'h','H'});
    } else if k == 5 {
      assert QualityPatterns[5][0] == Class({'b','B'});
    } else if k == 6 {
      assert QualityPatterns[6][0] == Class({'w','W'});
    } else if k == 7 {
      assert QualityPatterns[7][0] == Class({'x','X'});
    } else if k == 8 {
      assert QualityPatterns[8][0] == Class({'x','X'});
    } else if k == 9 {
      assert QualityPatterns[9][0] == Class({'h','H'});
    } else if k == 10 {
      assert QualityPatterns[10][0] == Class({'h','H'});
    } else if k == 11 {
      assert QualityPatterns[11][0] == Class({'a','A'});
    } else if k == 12 {
      assert QualityPatterns[12][0] == Class({'d','D'});
    } else if k == 13 {
      assert QualityPatterns[13][0] == Class({'a','A'});
    } else if k == 14 {
      assert QualityPatterns[14][0] == Class({'r','R'});
    } else {
      assert k == 15;
      assert QualityPatterns[15][0] == Class({'p','P'});
    }
  }

  /** A pattern whose first class matches nowhere removes nothing. */
  lemma {:induction false} RemoveUnmatched(p: seq<Atom>, s: string, i: nat)
    requires i <= |s| && p != [] && p[0].Class?
    requires forall j :: i <= j < |s| ==> s[j] !in p[0].chars
    ensures RemoveFrom(p, s, i) == s[i..]
    decreases |s| - i
  {
    if i < |s| {
      RemoveUnmatched(p, s, i + 1);
      assert [s[i]] + s[i + 1..] == s[i..];
    }
  }

  /** A title without any character a quality pattern starts with keeps all of it. */
  lemma {:induction false} QualityFree(s: string, n: nat)
    requires n <= |QualityPatterns|
    requires forall j :: 0 <= j < |s| ==> s[j] !in QualityStarts
    ensures WithoutQuality(s, n) == s
  {
    if n > 0 {
      QualityFree(s, n - 1);
      PatternStart(n - 1);
      RemoveUnmatched(QualityPatterns[n - 1], s, 0);
    }
  }
  /** Whitespace collapsing leaves a title without whitespace alone. */
  lemma {:induction false} CollapseNoop(s: string)
    requires forall j :: 0 <= j < |s| ==> !IsSpace(s[j])
    ensures CollapseSpaces(s) == s
    decreases |s|
  {
    if s != [] {
      CollapseNoop(s[1..]);
      assert [s[0]] + s[1..] == s;
    }
  }

  /** clean_title leaves alone a title with no quality-pattern start, whitespace, '.' or '_', and
      whose ends are neither ' ' nor '-'. */
  lemma PlainTitleUnchanged(s: string)
    requires forall j :: 0 <= j < |s| ==> s[j] !in QualityStarts && !IsSpace(s[j]) && s[j] != '.' && s[j] != '_'
    requires s != [] ==> !IsStripped(s[0]) && !IsStripped(s[|s| - 1])
    ensures CleanedTitle(s) == s
  {
    QualityFree(s, |QualityPatterns|);
    assert DotsToSpaces(s) == s;
    CollapseNoop(s);
  }

  // ---------------------------------------------------------------- parse_filename

  /** Printable ASCII other than '-', '.' and '_' is never a separator. */
  lemma PrintableNotSep(c: char)
    requires 0x21 <= c as int < 0x7F && c != '-' && c != '.' && c != '_'
    ensures !IsSep(c)
  {
  }

  function LastIndexOf(s: string, c: char): (r: Option<nat>)
    ensures r.Some? ==> r.value < |s| && s[r.value] == c && forall j :: r.value < j < |s| ==> s[j] != c
    ensures r.None? ==> c !in s
  {
    if s == [] then None
    else if s[|s| - 1] == c then Some(|s| - 1)
    else LastIndexOf(s[..|s| - 1], c)
  }

  /** `os.path.basename`: what follows the last '/'. */
  function Basename(path: string): (r: string)
    ensures '/' !in r
  {
    match LastIndexOf(path, '/')
    case None => path
    case Some(slash) => path[slash + 1..]
  }

  /** `os.path.splitext(name)[0]` on a base name: cut at the last '.', unless every character
      before it is a '.' as well (so ".bashrc" and "..x" keep their dot). */
  function StripExtension(name: string): string
  {
    match LastIndexOf(name, '.')
    case None => name
    case Some(dot) => if exists i :: 0 <= i < dot && name[i] != '.' then name[..dot] else name
  }

  /** The longest run of separator characters starting at i. */
  function SepRun(s: string, i: nat): (n: nat)
    requires i <= |s|
    ensures i + n <= |s|
    ensures forall k :: i <= k < i + n ==> IsSep(s[k])
    ensures i + n == |s| || !IsSep(s[i + n])
    decreases |s| - i
  {
    if i < |s| && IsSep(s[i]) then 1 + SepRun(s, i + 1) else 0
  }

  predicate DigitAt(s: string, i: nat)
  {
    i < |s| && IsDecimalDigit(s[i])
  }

  predicate DigitsAt(s: string, i: nat, n: nat)
  {
    i + n <= |s| && forall k :: i <= k < i + n ==> IsDecimalDigit(s[k])
  }

  /** int() of the n decimal digits at i. */
  function Number(s: string, i: nat, n: nat): nat
    requires DigitsAt(s, i, n)
  {
    ParseDigits(s[i..i + n], 10)
  }

  /** `(\d{1,2})` when nothing constrains what follows: two digits if there are two. */
  function OneOrTwoDigits(s: string, i: nat): (r: Option<nat>)
    ensures r.Some? ==> r.value <= 99
  {
    if DigitsAt(s, i, 2) then (DigitsBelow(s, i, 2); Some(Number(s, i, 2)))
    else if DigitsAt(s, i, 1) then (DigitsBelow(s, i, 1); Some(Number(s, i, 1)))
    else None
  }

  /** `(\d{1,2})<marker>(\d{1,2})` at p. The season's greedy two digits back off to one only if a
      marker follows the first digit. */
  function SeasonEpisode(s: string, p: nat, marker: set<char>): (r: Option<(nat, nat)>)
    ensures r.Some? ==> r.value.0 <= 99 && r.value.1 <= 99
  {
    if DigitsAt(s, p, 2) && p + 2 < |s| && s[p + 2] in marker then
      match OneOrTwoDigits(s, p + 3)
      case None => None
      case Some(e) => DigitsBelow(s, p, 2); Some((Number(s, p, 2), e))
    else if DigitsAt(s, p, 1) && p + 1 < |s| && s[p + 1] in marker then
      match OneOrTwoDigits(s, p + 2)
      case None => None
      case Some(e) => DigitsBelow(s, p, 1); Some((Number(s, p, 1), e))
    else None
  }

  /** What follows `^(.+?)` in each pattern, tried with the group ending at a. A greedy separator
      run backs off in vain (what follows it is never a separator), so only the longest run is
      tried. */

  /** `[\s\-\.\_]+[Ss](\d{1,2})[Ee](\d{1,2})`. */
  function SeasonEpisodeAt(s: string, a: nat): Option<(nat, nat)>
  {
    if a > |s| then None
    else
      var p := a + SepRun(s, a);
      if p == a || p >= |s| || s[p] !in {'S', 's'} then None
      else SeasonEpisode(s, p + 1, {'E', 'e'})
  }

  /** `[\s\-\.\_]+(\d{1,2})x(\d{1,2})`. */
  function CrossAt(s: string, a: nat): Option<(nat, nat)>
  {
    if a > |s| then None
    else
      var p := a + SepRun(s, a);
      if p == a then None else SeasonEpisode(s, p, {'x'})
  }

  /** `[\s\-\.\_]*[\(\[](\d{4})[\)\]]`. */
  function BracketYearAt(s: string, a: nat): Option<nat>
  {
    if a > |s| then None
    else
      var p := a + SepRun(s, a);
      if p + 5 < |s| && s[p] in {'(', '['} && DigitsAt(s, p + 1, 4) && s[p + 5] in {')', ']'}
      then Some(Number(s, p + 1, 4))
      else None
  }

  /** `[\s\-\.\_]+(\d{4})(?:[\s\-\.\_]|$)`. */
  function BareYearAt(s: string, a: nat): Option<nat>
  {
    if a > |s| then None
    else
      var p := a + SepRun(s, a);
      if p > a && DigitsAt(s, p, 4) && (p + 4 == |s| || IsSep(s[p + 4]))
      then Some(Number(s, p, 4))
      else None
  }

  /** `re.search(r'^(.+?)' + rest, s)`: the first group end a, from `from` on, at which `rest`
      matches; the group is at least one character and `.` does not match a newline. */
  function LazyMatch<T>(rest: (string, nat) -> Option<T>, s: string, from: nat): (r: Option<(nat, T)>)
    requires from >= 1
    ensures r.Some? ==> from <= r.value.0 <= |s| && rest(s, r.value.0) == Some(r.value.1)
    decreases |s| + 1 - from
  {
    if from > |s| || s[from - 1] == '\n' then None
    else match rest(s, from)
      case Some(v) => Some((from, v))
      case None => LazyMatch(rest, s, from + 1)
  }

  /** The group may end at a: it is non-empty, newline-free, and the rest matches there. */
  predicate GroupFits<T>(rest: (string, nat) -> Option<T>, s: string, a: nat)
  {
    1 <= a <= |s| && '\n' !in s[..a] && rest(s, a).Some?
  }

  /** The result of parse_filename. */
  datatype Parsed =
    | Tv(title: string, season: nat, episode: nat)
    | Movie(title: string, year: nat)
    | Unknown(title: string)

  /** The ordered rules of parse_filename, applied to the name without directory and extension. */
  function ParseName(name: string): Parsed
  {
    match LazyMatch(SeasonEpisodeAt, name, 1)
    case Some((a, se)) => Tv(CleanedTitle(name[..a]), se.0, se.1)
    case None =>
      match LazyMatch(CrossAt, name, 1)
      case Some((a, se)) => Tv(CleanedTitle(name[..a]), se.0, se.1)
      case None =>
        match LazyMatch(BracketYearAt, name, 1)
        case Some((a, year)) => Movie(CleanedTitle(name[..a]), year)
        case None =>
          match LazyMatch(BareYearAt, name, 1)
          case Some((a, year)) =>
            if 1900 <= year <= 2100 then Movie(CleanedTitle(name[..a]), year)
            else Unknown(CleanedTitle(name))
          case None => Unknown(CleanedTitle(name))
  }

  /** parse_filename. */
  function ParseFilename(path: string): Parsed
  {
    ParseName(StripExtension(Basename(path)))
  }

  lemma DigitsBelow(s: string, i: nat, n: nat)
    requires DigitsAt(s, i, n) && 1 <= n <= 2
    ensures Number(s, i, n) <= if n == 1 then 9 else 99
  {
    var t := s[i..i + n];
    assert IsDecimalDigit(t[0]) && DigitValue(t[0]) <= 9;
    if n == 2 {
      assert IsDecimalDigit(t[1]) && DigitValue(t[1]) <= 9;
      assert t[..1][..0] == [];
      assert ParseDigits(t[..1], 10) == DigitValue(t[0]);
      assert ParseDigits(t, 10) == ParseDigits(t[..1], 10) * 10 + DigitValue(t[1]);
    } else {
      assert t[..0] == [];
      assert ParseDigits(t, 10) == DigitValue(t[0]);
    }
  }

  /** The lazy group ends at the shortest fitting position: LazyMatch finds a exactly when the
      group fits there and at no earlier position, and finds nothing exactly when it fits nowhere. */
  lemma {:induction false} LazyMatchIsShortest<T>(rest: (string, nat) -> Option<T>, s: string, from: nat)
    requires 1 <= from <= |s| + 1 && '\n' !in s[..from - 1]
    ensures LazyMatch(rest, s, from).Some? ==>
      var a := LazyMatch(rest, s, from).value.0;
      && GroupFits(rest, s, a) && rest(s, a) == Some(LazyMatch(rest, s, from).value.1) && from <= a
      && forall b :: from <= b < a ==> !GroupFits(rest, s, b)
    ensures LazyMatch(rest, s, from).None? ==> forall b :: from <= b ==> !GroupFits(rest, s, b)
    decreases |s| + 1 - from
  {
    if from > |s| {
    } else if s[from - 1] == '\n' {
      forall b | from <= b
        ensures !GroupFits(rest, s, b)
      {
        if b <= |s| {
          assert s[..b][from - 1] == '\n';
        }
      }
    } else {
      assert s[..from] == s[..from - 1] + [s[from - 1]];
      if rest(s, from).None? {
        LazyMatchIsShortest(rest, s, from + 1);
      }
    }
  }

  /** Rules are tried in a fixed order and the first to match decides: an SxxEyy match wins over
      everything, an NxM match over the movie rules, a bracketed year over a bare one; a bare year
      outside 1900..2100 gives up with the cleaned whole name rather than trying a later split. */
  lemma RuleOrder(name: string)
    ensures ParseName(name).Tv? <==>
      LazyMatch(SeasonEpisodeAt, name, 1).Some? || LazyMatch(CrossAt, name, 1).Some?
    ensures LazyMatch(SeasonEpisodeAt, name, 1).Some? ==>
      var m := LazyMatch(SeasonEpisodeAt, name, 1).value;
      ParseName(name) == Tv(CleanedTitle(name[..m.0]), m.1.0, m.1.1)
    ensures ParseName(name).Movie? && LazyMatch(BracketYearAt, name, 1).None? ==>
      1900 <= ParseName(name).year <= 2100
    ensures (LazyMatch(SeasonEpisodeAt, name, 1).None? && LazyMatch(CrossAt, name, 1).None?
             && LazyMatch(BracketYearAt, name, 1).Some?) ==>
      var m := LazyMatch(BracketYearAt, name, 1).value;
      ParseName(name) == Movie(CleanedTitle(name[..m.0]), m.1)
    ensures (LazyMatch(SeasonEpisodeAt, name, 1).None? && LazyMatch(CrossAt, name, 1).None?
             && LazyMatch(BracketYearAt, name, 1).None? && LazyMatch(BareYearAt, name, 1).Some?) ==>
      var m := LazyMatch(BareYearAt, name, 1).value;
      ParseName(name) == if 1900 <= m.1 <= 2100 then Movie(CleanedTitle(name[..m.0]), m.1)
                         else Unknown(CleanedTitle(name))
    ensures ParseName(name).Unknown? ==> ParseName(name) == Unknown(CleanedTitle(name))
  {
  }

  /** TV results always carry a season and an episode of one or two digits. */
  lemma TvNumbersInRange(name: string)
    ensures ParseName(name).Tv? ==> ParseName(name).season <= 99 && ParseName(name).episode <= 99
  {
  }

  /** Only the base name without its extension is parsed: a directory prefix and an extension of
      characters other than '.' and '/' make no difference. */
  lemma ExtensionIgnored(dir: string, stem: string, ext: string)
    requires '/' !in stem && '.' !in ext && '/' !in ext
    requires exists i :: 0 <= i < |stem| && stem[i] != '.'
    ensures ParseFilename(dir + "/" + stem + "." + ext) == ParseName(stem)
  {
    var name := stem + "." + ext;
    assert '/' !in name;
    assert dir + "/" + stem + "." + ext == dir + "/" + name;
    BasenameAfterSlash(dir, name);
    StemBeforeExtension(stem, ext);
  }

  lemma StemBeforeExtension(stem: string, ext: string)
    requires '.' !in ext
    requires exists i :: 0 <= i < |stem| && stem[i] != '.'
    ensures StripExtension(stem + "." + ext) == stem
  {
    var name := stem + "." + ext;
    assert name[|stem|] == '.';
    assert forall j :: |stem| < j < |name| ==> name[j] == ext[j - |stem| - 1];
    assert LastIndexOf(name, '.') == Some(|stem|);
    var i :| 0 <= i < |stem| && stem[i] != '.';
    assert name[i] == stem[i];
    assert name[..|stem|] == stem;
  }

  lemma BasenameAfterSlash(dir: string, name: string)
    requires '/' !in name
    ensures Basename(dir + "/" + name) == name
  {
    var path := dir + "/" + name;
    assert path[|dir|] == '/';
    assert forall j :: |dir| < j < |path| ==> path[j] == name[j - |dir| - 1];
    assert LastIndexOf(path, '/') == Some(|dir|);
    assert path[|dir| + 1..] == name;
  }
}
