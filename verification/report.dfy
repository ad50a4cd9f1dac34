/**
 `calculate_demographic_data`: clean the table, then compute the ten
 statistics. The two statistics that pandas cannot compute on degenerate
 input raise `ValueError` there; they are the error cases of the result.
 */
module Report {
  import opened Wrappers
  import opened Sequences
  import opened ValueCounts
  import opened Census
  import opened Statistics

  /** Why the report could not be produced. */
  datatype ReportError =
    | EmptyTable   // `int(NaN)` for the minimum hours of a table with no complete row
    | NoRichRows   // `idxmax` of an empty ratio series: no row earns `>50K`

  /** The returned dictionary, one field per key, in the source's order. */
  datatype Report = Report(
    raceCount: seq<Entry>,
    averageAgeMen: Option<real>,
    percentageBachelors: Option<real>,
    higherEducationRich: Option<real>,
    lowerEducationRich: Option<real>,
    minWorkHours: int,
    richPercentage: real,
    highestEarningCountry: string,
    highestEarningCountryPercentage: real,
    topInOccupation: Option<string>)

  /**
   The statistics of an already-cleaned table. It fails with `EmptyTable`
   exactly when the table is empty and with `NoRichRows` exactly when it has
   rows but none earns `>50K`.
   */
  function Summarize(t: Table): (r: Result<Report, ReportError>)
    ensures r == Failure(EmptyTable) <==> |t| == 0
    ensures r == Failure(NoRichRows) <==> |t| > 0 && forall i :: 0 <= i < |t| ==> !IsRich(t[i])
    ensures r.Success? <==> |t| > 0 && exists i :: 0 <= i < |t| && IsRich(t[i])
  {
    if |t| == 0 then Failure(EmptyTable)
    else
      match HighestEarningCountry(t)
      case None => Failure(NoRichRows)
      case Some(best) =>
        Success(Report(
          RaceCount(t),
          AverageAgeMen(t),
          PercentageBachelors(t),
          HigherEducationRich(t),
          LowerEducationRich(t),
          MinWorkHours(t),
          RichPercentage(t),
          best.0,
          best.1,
          TopInOccupation(t)))
  }

  /**
   The whole pipeline over already-parsed rows: clean, then summarize. It
   fails with `EmptyTable` exactly when no row is complete, with
   `NoRichRows` exactly when some row is complete but no complete row earns
   `>50K`, and succeeds otherwise.
   */
  function CalculateDemographicData(raws: seq<RawRecord>): (r: Result<Report, ReportError>)
    ensures r == Failure(EmptyTable) <==> forall i :: 0 <= i < |raws| ==> !Complete(raws[i])
    ensures r == Failure(NoRichRows) <==>
      |Clean(raws)| > 0 && forall i :: 0 <= i < |Clean(raws)| ==> !IsRich(Clean(raws)[i])
    ensures r.Success? <==> |Clean(raws)| > 0 && exists i :: 0 <= i < |Clean(raws)| && IsRich(Clean(raws)[i])
  {
    CleanEmpty(raws);
    Summarize(Clean(raws))
  }

  /** A table with a `>50K` row is summarized, and its race counts add up to its number of rows. */
  lemma ReportRaceCountTotal(t: Table)
    requires exists i :: 0 <= i < |t| && IsRich(t[i])
    ensures Summarize(t).Success?
    ensures Total(Summarize(t).value.raceCount) == |t|
  {
    assert Summarize(t).value.raceCount == RaceCount(t);
  }

  /** The reported minimum hours are at most every row's hours and are some row's hours. */
  lemma ReportMinWorkHours(t: Table)
    requires exists i :: 0 <= i < |t| && IsRich(t[i])
    ensures Summarize(t).Success?
    ensures forall i :: 0 <= i < |t| ==> Summarize(t).value.minWorkHours <= t[i].hoursPerWeek
    ensures exists i :: 0 <= i < |t| && t[i].hoursPerWeek == Summarize(t).value.minWorkHours
  {
    assert Summarize(t).value.minWorkHours == MinWorkHours(t);
  }

  /** The reported `>50K` share among the minimum-hours workers is a percentage. */
  lemma ReportRichPercentage(t: Table)
    requires exists i :: 0 <= i < |t| && IsRich(t[i])
    ensures Summarize(t).Success?
    ensures 0.0 <= Summarize(t).value.richPercentage <= 100.0
  {
    assert Summarize(t).value.richPercentage == RichPercentage(t);
  }

  /**
   The reported country percentage lies in (0, 100], is that country's
   `>50K` share, and is at least every country's ratio in `earning_by_country`.
   */
  lemma ReportHighestEarningCountry(t: Table)
    requires exists i :: 0 <= i < |t| && IsRich(t[i])
    ensures Summarize(t).Success?
    ensures 0.0 < Summarize(t).value.highestEarningCountryPercentage <= 100.0
    ensures IsPercentOf(Summarize(t).value.highestEarningCountryPercentage,
                        RichCountryTotal(t, Summarize(t).value.highestEarningCountry),
                        CountryTotal(t, Summarize(t).value.highestEarningCountry))
    ensures forall i :: 0 <= i < |EarningByCountry(t)| ==>
      EarningByCountry(t)[i].1 <= Summarize(t).value.highestEarningCountryPercentage
  {
    HighestEarningCountryRatio(t);
    assert Summarize(t).value.highestEarningCountry == HighestEarningCountry(t).value.0;
    assert Summarize(t).value.highestEarningCountryPercentage == HighestEarningCountry(t).value.1;
  }

  /** The reported occupation is missing exactly when no row is from India and earns `>50K`. */
  lemma ReportTopInOccupation(t: Table)
    requires exists i :: 0 <= i < |t| && IsRich(t[i])
    ensures Summarize(t).Success?
    ensures Summarize(t).value.topInOccupation.None? <==> forall i :: 0 <= i < |t| ==> !IsIndiaRich(t[i])
  {
    assert Summarize(t).value.topInOccupation == TopInOccupation(t);
  }
}
