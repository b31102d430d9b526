/**
 * Worked examples: concrete inputs run through the model, with the outputs
 * the scripts are meant to produce.
 */
module Examples {
  import opened Wrappers
  import opened Text
  import opened TimePattern
  import opened ScrapeMatches
  import opened FilterScrapedMatches
  import opened GetTeams
  import opened Seqs

  /** A time cell split over two lines is joined and kept whole. */
  lemma ExampleTime()
    ensures MatchTime("30.05.\n12:30") == "30.05. 12:30"
  {
    var t := "30.05. 12:30";
    ExampleTimeText();
    ExampleSearch();
    MatchTimeFound("30.05.\n12:30", t, 0, 12);
    assert t[0..12] == t;
  }

  /** With the time text and its search result known, `match_time` is the slice they name. */
  lemma MatchTimeFound(raw: string, t: string, a: nat, b: nat)
    requires TimeText(raw) == t && Search(t) == Some((a, b))
    ensures MatchTime(raw) == t[a..b]
  {
  }

  lemma ExampleTimeText()
    ensures TimeText("30.05.\n12:30") == "30.05. 12:30"
  {
    ExampleReplaceNewlines();
    ExampleStripTime();
  }

  lemma ExampleStripTime()
    ensures Strip("30.05. 12:30") == "30.05. 12:30"
  {
    StripIs([], "30.05. 12:30", []);
    assert [] + "30.05. 12:30" + [] == "30.05. 12:30";
  }

  lemma ExampleReplaceNewlines()
    ensures ReplaceNewlines("30.05.\n12:30") == "30.05. 12:30"
  {
    var raw := "30.05.\n12:30";
    var t := "30.05. 12:30";
    ReplaceNewlinesSpec(raw);
    assert raw[6] == '\n' && t[6] == ' ';
    assert forall i :: 0 <= i < |raw| && i != 6 ==> raw[i] == t[i];
  }

  lemma ExampleSearch()
    ensures Search("30.05. 12:30") == Some((0, 12))
  {
    var t := "30.05. 12:30";
    assert t[0] == '3' && t[1] == '0' && t[2] == '.' && t[3] == '0' && t[4] == '5' && t[5] == '.';
    assert t[6] == ' ' && t[7] == '1' && t[8] == '2' && t[9] == ':' && t[10] == '3' && t[11] == '0';
    SpaceRunEndIs(t, 6, 7);
    MatchEndSteps(t, 0, 2, 2, 1, 2);
  }

  /** A name without a score is only stripped. */
  lemma ExampleInter()
    ensures CleanParticipant("Inter") == "Inter"
  {
    CleanParticipantNoTrailingDigit("Inter");
    StripIs([], "Inter", []);
    assert [] + "Inter" + [] == "Inter";
  }

  /** The score digits glued to a name are removed. */
  lemma ExampleRealMadrid()
    ensures CleanParticipant("Real Madrid2") == "Real Madrid"
  {
    var s := "Real Madrid2";
    assert ScoreEnd(s) == 12;
    assert DigitRunStart(s, 11) == 11;
    assert DigitRunStart(s, 12) == 11;
    assert SpaceRunStart(s, 11) == 11;
    assert StripScore(s) == "Real Madrid";
    StripIs([], "Real Madrid", []);
    assert [] + "Real Madrid" + [] == "Real Madrid";
  }

  /** Only the final digit group goes, with the space before it. */
  lemma ExampleTeam12()
    ensures CleanParticipant("Team 1 2") == "Team 1"
  {
    var s := "Team 1 2";
    assert ScoreEnd(s) == 8;
    assert DigitRunStart(s, 7) == 7;
    assert DigitRunStart(s, 8) == 7;
    assert SpaceRunStart(s, 6) == 6;
    assert SpaceRunStart(s, 7) == 6;
    assert StripScore(s) == "Team 1";
    StripIs([], "Team 1", []);
    assert [] + "Team 1" + [] == "Team 1";
  }

  /** A parenthesised tag and the space before it are dropped. */
  lemma ExampleNormalize()
    ensures Normalize("Real Madrid (W)") == "Real Madrid"
  {
    NormalizeDropsGroup("Real Madrid", " ", "W", "");
    assert "Real Madrid" + " " + "(" + "W" + ")" + "" == "Real Madrid (W)";
    assert SpaceRunStart("Real Madrid", 11) == 11;
    assert Normalize("") == "";
  }

  /** A name without `(` is its own normalised form. */
  lemma ExampleNormalizePlain()
    ensures Normalize("Getafe") == "Getafe"
  {
    NormalizeNoParen("Getafe");
  }

  /** A tagged scraped name is relabelled with its canonical spelling; an unknown team is dropped. */
  lemma ExampleFilter()
    ensures Filtered([ScrapedRow("Real Madrid (W)", "2015-05-30"), ScrapedRow("Getafe", "2015-05-30")],
                     CanonicalMap(["Real Madrid"]))
            == [FilteredRow("Real Madrid", "2015-05-30")]
  {
    var canon := CanonicalMap(["Real Madrid"]);
    var r1 := ScrapedRow("Real Madrid (W)", "2015-05-30");
    var r2 := ScrapedRow("Getafe", "2015-05-30");
    ExampleCanonicalMap();
    assert Relabel(canon)(r1) == Some(FilteredRow("Real Madrid", "2015-05-30")) by {
      ExampleNormalize();
    }
    assert Relabel(canon)(r2) == None by {
      ExampleNormalizePlain();
    }
    var f := Relabel(canon);
    assert [r1, r2][1..] == [r2];
    assert [r2][1..] == [];
    assert FilterMap(f, [r2]) == [];
    assert FilterMap(f, [r1, r2]) == [FilteredRow("Real Madrid", "2015-05-30")] + FilterMap(f, [r2]);
  }

  lemma ExampleCanonicalMap()
    ensures CanonicalMap(["Real Madrid"]) == map["Real Madrid" := "Real Madrid"]
  {
    NormalizeNoParen("Real Madrid");
    assert ["Real Madrid"][..0] == [];
  }

  /** Teams are listed once each, in order of first mention. */
  lemma ExampleUniqueTeams()
    ensures UniqueTeams([Fixture("Sevilla", "Betis"), Fixture("Betis", "Eibar")]) == ["Sevilla", "Betis", "Eibar"]
  {
    var rows := [Fixture("Sevilla", "Betis"), Fixture("Betis", "Eibar")];
    var r := ["Sevilla", "Betis", "Betis", "Eibar"];
    assert Ravel(rows) == r;
    assert r[..3][..2][..1][..0] == [];
    assert Unique(r[..3][..2][..1]) == ["Sevilla"];
    assert Unique(r[..3][..2]) == ["Sevilla", "Betis"];
    assert Unique(r[..3]) == ["Sevilla", "Betis"];
  }
}
