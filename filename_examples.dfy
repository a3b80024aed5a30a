/** parse_filename and clean_title on a few concrete names. */
module FilenameExamples {
  import opened Wrappers
  import opened Numerals
  import opened FilenameParsing

  /** The titles of the examples below are their own cleaned titles. */
  lemma ExampleTitleIsPlain(t: string)
    requires t == "Lost" || t == "Film" || t == "Film-3000"
    ensures CleanedTitle(t) == t
  {
    if t == "Lost" {
      PlainTitleUnchanged("Lost");
    } else if t == "Film" {
      PlainTitleUnchanged("Film");
    } else {
      PlainTitleUnchanged("Film-3000");
    }
  }

  lemma SeparatorsOfLost()
    ensures forall a :: 1 <= a <= 3 ==> SepRun("Lost.S01E02", a) == 0
    ensures SepRun("Lost.S01E02", 4) == 1
  {
    var s := "Lost.S01E02";
    forall a | 0 <= a < 11 && a != 4
      ensures !IsSep(s[a])
    {
      PrintableNotSep(s[a]);
    }
    assert SepRun(s, 5) == 0;
  }

  lemma TwoDigitNumbers()
    ensures ParseDigits("01", 10) == 1 && ParseDigits("02", 10) == 2
  {
    assert "01"[..1] == "0";
    assert "02"[..1] == "0";
    assert "0"[..0] == [];
  }

  lemma LostMatchesSeasonEpisode()
    ensures LazyMatch(SeasonEpisodeAt, "Lost.S01E02", 1) == Some((4, (1, 2)))
  {
    var s := "Lost.S01E02";
    SeparatorsOfLost();
    TwoDigitNumbers();
    assert s[6..8] == "01";
    assert s[9..11] == "02";
    assert SeasonEpisodeAt(s, 4) == Some((1, 2));
  }

  /** "Lost.S01E02": a TV episode; the shortest group before the separator is the title. */
  lemma SeasonEpisodeExample()
    ensures ParseName("Lost.S01E02") == Tv("Lost", 1, 2)
  {
    var s := "Lost.S01E02";
    LostMatchesSeasonEpisode();
    assert ParseName(s) == Tv(CleanedTitle(s[..4]), 1, 2);
    assert s[..4] == "Lost";
    ExampleTitleIsPlain("Lost");
  }

  lemma ParseDigits3000()
    ensures ParseDigits("3000", 10) == 3000
  {
    assert "3000"[..3] == "300";
    assert "300"[..2] == "30";
    assert "30"[..1] == "3";
    assert "3"[..0] == [];
  }

  lemma SeparatorsOfDashedFilm()
    ensures forall a :: 1 <= a <= 9 && a != 4 ==> SepRun("Film-3000", a) == 0
    ensures SepRun("Film-3000", 4) == 1
  {
    var s := "Film-3000";
    forall a | 0 <= a < 9 && a != 4
      ensures !IsSep(s[a])
    {
      PrintableNotSep(s[a]);
    }
    assert SepRun(s, 9) == 0;
    assert SepRun(s, 5) == 0;
  }

  lemma DashedFilmHasNoEpisode()
    ensures LazyMatch(SeasonEpisodeAt, "Film-3000", 1) == None
    ensures LazyMatch(CrossAt, "Film-3000", 1) == None
  {
    SeparatorsOfDashedFilm();
  }

  lemma DashedFilmHasNoBracketYear()
    ensures LazyMatch(BracketYearAt, "Film-3000", 1) == None
  {
    SeparatorsOfDashedFilm();
  }

  lemma DashedFilmHasBareYear()
    ensures LazyMatch(BareYearAt, "Film-3000", 1) == Some((4, 3000))
  {
    var s := "Film-3000";
    SeparatorsOfDashedFilm();
    assert s[5..9] == "3000";
    ParseDigits3000();
    assert BareYearAt(s, 4) == Some(3000);
  }

  /** "Film-3000": the bare-year pattern matches, but 3000 is outside 1900..2100, so the whole name
      is the title of an unknown item. */
  lemma BareYearOutOfRangeExample()
    ensures ParseName("Film-3000") == Unknown("Film-3000")
  {
    DashedFilmHasNoEpisode();
    DashedFilmHasNoBracketYear();
    DashedFilmHasBareYear();
    RuleOrder("Film-3000");
    ExampleTitleIsPlain("Film-3000");
  }

  lemma SeparatorsOfBracketedFilm()
    ensures forall a :: 1 <= a <= 11 && a != 4 ==> SepRun("Film (3000)", a) == 0
    ensures SepRun("Film (3000)", 4) == 1
  {
    var s := "Film (3000)";
    forall a | 0 <= a < 11 && a != 4
      ensures !IsSep(s[a])
    {
      PrintableNotSep(s[a]);
    }
    assert SepRun(s, 11) == 0;
    assert SepRun(s, 5) == 0;
  }

  lemma BracketedFilmHasNoEpisode()
    ensures LazyMatch(SeasonEpisodeAt, "Film (3000)", 1) == None
    ensures LazyMatch(CrossAt, "Film (3000)", 1) == None
  {
    SeparatorsOfBracketedFilm();
  }

  lemma BracketedFilmHasBracketYear()
    ensures LazyMatch(BracketYearAt, "Film (3000)", 1) == Some((4, 3000))
  {
    var s := "Film (3000)";
    SeparatorsOfBracketedFilm();
    assert s[6..10] == "3000";
    ParseDigits3000();
    assert BracketYearAt(s, 4) == Some(3000);
  }

  /** "Film (3000)": a bracketed year is accepted whatever its value. */
  lemma BracketedAnyYearExample()
    ensures ParseName("Film (3000)") == Movie("Film", 3000)
  {
    BracketedFilmHasNoEpisode();
    BracketedFilmHasBracketYear();
    RuleOrder("Film (3000)");
    assert "Film (3000)"[..4] == "Film";
    ExampleTitleIsPlain("Film");
  }

  lemma AacPattern()
    ensures QualityPatterns[11] == [Class({'a', 'A'}), Class({'a', 'A'}), Class({'c', 'C'})]
  {
    var e := EitherCase("aac");
    assert e[0] == Class({'a', 'A'}) && e[1] == Class({'a', 'A'}) && e[2] == Class({'c', 'C'});
  }

  lemma AacOccursOnceInIsaac()
    ensures MatchLength([Class({'a', 'A'}), Class({'a', 'A'}), Class({'c', 'C'})], "Isaac", 0) == None
    ensures MatchLength([Class({'a', 'A'}), Class({'a', 'A'}), Class({'c', 'C'})], "Isaac", 1) == None
    ensures MatchLength([Class({'a', 'A'}), Class({'a', 'A'}), Class({'c', 'C'})], "Isaac", 2) == Some(3)
  {
  }

  lemma RemoveAacFromIsaac()
    ensures RemoveAll([Class({'a', 'A'}), Class({'a', 'A'}), Class({'c', 'C'})], "Isaac") == "Is"
  {
    var p := [Class({'a', 'A'}), Class({'a', 'A'}), Class({'c', 'C'})];
    var s := "Isaac";
    AacOccursOnceInIsaac();
    assert RemoveFrom(p, s, 2) == RemoveFrom(p, s, 5) == [];
    assert RemoveFrom(p, s, 1) == ['s'];
    assert RemoveFrom(p, s, 0) == ['I'] + RemoveFrom(p, s, 1);
  }

  /** The quality patterns have no word boundaries: `[aA][aA][cC]` deletes part of "Isaac". */
  lemma TagInsideWordExample()
    ensures RemoveAll(QualityPatterns[11], "Isaac") == "Is"
  {
    AacPattern();
    RemoveAacFromIsaac();
  }
}
