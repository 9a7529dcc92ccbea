/** Worked queries for `extract_duration_constraint`: a range, a single
    number, and the `about an hour` pattern that raises. */
module DurationCases {
  import opened Wrappers
  import opened Text
  import opened DurationRules

  const RangeQuery: string := "30-40 minutes"

  lemma RangeQueryLower()
    ensures Lower(RangeQuery) == RangeQuery
  {
  }

  lemma RangeQueryRuns()
    ensures Run(RangeQuery, 0, Digits) == 2 && Run(RangeQuery, 2, DashesOrSpaces) == 3
    ensures Run(RangeQuery, 3, Digits) == 5 && Run(RangeQuery, 5, Spaces) == 6
  {
  }

  lemma RangeQueryNumbers()
    ensures Number(RangeQuery, 0, 2) == 30 && Number(RangeQuery, 3, 5) == 40
  {
    assert RangeQuery[0..2] == "30" && RangeQuery[3..5] == "40";
    assert "30"[..1] == "3" && "40"[..1] == "4" && "3"[..0] == [] && "4"[..0] == [];
  }

  lemma RangeQueryMatch()
    ensures MatchAt(RangeQuery, 0, Patterns[0]) == Some(Pair(30, 40))
  {
    RangeQueryRuns();
    RangeQueryNumbers();
    assert StartsAt(RangeQuery, 6, "minute");
  }

  /** "30-40 minutes" gives the window 30 to 40. */
  lemma RangeExample()
    ensures ExtractDurationConstraint(RangeQuery) == Success(Window(30, 40))
  {
    RangeQueryLower();
    RangeQueryMatch();
    ExtractFollowsFirstMatch(RangeQuery, 0, 0, Pair(30, 40));
  }

  const SingleQuery: string := "40 minute test"

  /** No two-number pattern matches a query holding a single number. */
  lemma SingleQueryNoRange(unit: string)
    ensures NoMatch(SingleQuery, Range(unit))
  {
    var s := SingleQuery;
    forall i | 0 <= i <= |s| ensures MatchAt(s, i, Range(unit)).None? {
      if i < 2 {
        assert Run(s, i, Digits) == 2 && Run(s, 2, DashesOrSpaces) == 3 && Run(s, 3, Digits) == 3;
      } else {
        assert i == |s| || !IsDigit(s[i]);
      }
    }
  }

  lemma SingleQueryMatch()
    ensures MatchAt(SingleQuery, 0, Patterns[2]) == Some(One(40))
  {
    var s := SingleQuery;
    assert Run(s, 0, Digits) == 2 && Run(s, 2, Spaces) == 3;
    assert s[0..2] == "40" && "40"[..1] == "4" && "4"[..0] == [];
    assert StartsAt(s, 3, "minute");
  }

  /** "40 minute test" gives 40 plus or minus 10. */
  lemma SingleExample()
    ensures ExtractDurationConstraint(SingleQuery) == Success(Window(30, 50))
  {
    assert Lower(SingleQuery) == SingleQuery;
    SingleQueryNoRange("minute");
    SingleQueryNoRange("min");
    SingleQueryMatch();
    ExtractFollowsFirstMatch(SingleQuery, 2, 0, One(40));
  }

  const AboutQuery: string := "about an hour"

  lemma AboutQueryMatch()
    ensures MatchAt(AboutQuery, 0, AboutAnHour) == Some(Whole)
  {
    var s := AboutQuery;
    assert StartsAt(s, 0, "about");
    assert Run(s, 5, Spaces) == 6 && Run(s, 8, Spaces) == 9;
    assert StartsAt(s, 9, "hour");
  }

  /** "about an hour" raises instead of giving a window. */
  lemma AboutAnHourExample()
    ensures ExtractDurationConstraint(AboutQuery) == Failure(ValueError)
  {
    var s := AboutQuery;
    assert Lower(s) == s;
    forall k | 0 <= k < 6 ensures NoMatch(s, Patterns[k]) {
      NoDigitsNoNumberPattern(s, k);
    }
    AboutQueryMatch();
    ExtractFollowsFirstMatch(s, 6, 0, Whole);
  }


  const HoursQuery: string := "2 hours"

  lemma HoursQueryRuns()
    ensures Run(HoursQuery, 0, Digits) == 1 && Run(HoursQuery, 1, DashesOrSpaces) == 2
    ensures Run(HoursQuery, 2, Digits) == 2 && Run(HoursQuery, 1, Spaces) == 2
  {
  }

  /** Only a number followed by `hour` matches "2 hours". */
  lemma HoursQueryOnlyHour(k: nat)
    requires k < 5
    ensures NoMatch(HoursQuery, Patterns[k])
  {
    var s := HoursQuery;
    HoursQueryRuns();
    assert !StartsAt(s, 2, "min");
    forall i | 0 <= i <= |s| ensures MatchAt(s, i, Patterns[k]).None? {
      if i > 0 {
        assert i == |s| || !IsDigit(s[i]);
      }
    }
  }

  lemma HoursQueryMatch()
    ensures MatchAt(HoursQuery, 0, Patterns[5]) == Some(One(2))
  {
    var s := HoursQuery;
    HoursQueryRuns();
    assert StartsAt(s, 2, "hour");
    assert s[0..1] == "2" && "2"[..0] == [];
  }

  /** "2 hours" gives 2 plus or minus 10, in minutes: hours are not
      converted. */
  lemma HoursExample()
    ensures ExtractDurationConstraint(HoursQuery) == Success(Window(-8, 12))
  {
    assert Lower(HoursQuery) == HoursQuery;
    forall k | 0 <= k < 5 ensures NoMatch(HoursQuery, Patterns[k]) {
      HoursQueryOnlyHour(k);
    }
    HoursQueryMatch();
    ExtractFollowsFirstMatch(HoursQuery, 5, 0, One(2));
  }
}
