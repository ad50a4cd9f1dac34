/**
 The ten statistics of the report, each a pure function of the cleaned table.
 Percentages are exact quotients; `None` stands for the NaN that pandas
 produces when a mean is taken over an empty selection.
 */
module Statistics {
  import opened Wrappers
  import opened Sequences
  import opened Strings
  import opened ValueCounts
  import opened Census

  /** The education levels counted as advanced. */
  const AdvancedEducation: set<string> := {"Bachelors", "Masters", "Doctorate"}

  predicate IsMale(r: Record) { r.sex == "Male" }
  predicate IsBachelors(r: Record) { r.education == "Bachelors" }
  predicate IsHigherEducation(r: Record) { r.education in AdvancedEducation }
  predicate IsLowerEducation(r: Record) { r.education !in AdvancedEducation }
  predicate IsRich(r: Record) { r.salary == ">50K" }
  predicate IsIndiaRich(r: Record) { r.nativeCountry == "India" && IsRich(r) }

  function RaceOf(r: Record): string { r.race }
  function AgeOf(r: Record): int { r.age }
  function HoursOf(r: Record): int { r.hoursPerWeek }
  function CountryOf(r: Record): string { r.nativeCountry }
  function OccupationOf(r: Record): string { r.occupation }

  /** Number of rows whose race is `k`. */
  function RaceTotal(t: Table, k: string): nat
  {
    multiset(Map(t, RaceOf))[k]
  }

  /**
   `race_count`: one entry per distinct race, listing how many rows have it,
   ordered from the most to the least frequent race.
   */
  function RaceCount(t: Table): (r: seq<Entry>)
    ensures forall i :: 0 <= i < |r| ==> r[i].1 == RaceTotal(t, r[i].0) && r[i].1 > 0
    ensures forall i :: 0 <= i < |t| ==> t[i].race in Keys(r)
    ensures forall i, j :: 0 <= i < j < |r| ==> r[i].0 != r[j].0
    ensures Total(r) == |t|
    ensures NonIncreasing(r)
  {
    var races := Map(t, RaceOf);
    var r := SortDescending(Counts(races));
    RaceCountEntries(races);
    RaceCountCovers(races);
    DistinctKeysIndices(r);
    r
  }

  /** After sorting, every entry of a tally still lists its value's number of occurrences. */
  lemma RaceCountEntries(xs: seq<string>)
    ensures forall i :: 0 <= i < |SortDescending(Counts(xs))| ==>
      SortDescending(Counts(xs))[i].1 == multiset(xs)[SortDescending(Counts(xs))[i].0]
      && SortDescending(Counts(xs))[i].1 > 0
  {
    var l := Counts(xs);
    var r := SortDescending(l);
    CountsEntries(xs);
    forall i | 0 <= i < |r|
      ensures r[i].1 == multiset(xs)[r[i].0] && r[i].1 > 0
    {
      assert r[i] in multiset(l);
      var j :| 0 <= j < |l| && l[j] == r[i];
    }
  }

  /** After sorting, every value of the column still has an entry. */
  lemma RaceCountCovers(xs: seq<string>)
    ensures forall i :: 0 <= i < |xs| ==> xs[i] in Keys(SortDescending(Counts(xs)))
  {
    forall i | 0 <= i < |xs|
      ensures xs[i] in Keys(SortDescending(Counts(xs)))
    {
      assert xs[i] in xs;
    }
  }

  /** The male rows. */
  function Men(t: Table): Table
  {
    Where(t, IsMale)
  }

  /**
   `average_age_men`: the mean age of the male rows, NaN when there are none;
   times the number of men it gives their total age.
   */
  function AverageAgeMen(t: Table): (r: Option<real>)
    ensures r.None? <==> forall i :: 0 <= i < |t| ==> !IsMale(t[i])
    ensures r.Some? ==> r.value * |Men(t)| as real == SumOf(Map(Men(t), AgeOf)) as real
  {
    MenExist(t);
    Mean(Map(Men(t), AgeOf))
  }

  /** There is a man exactly when the male selection is non-empty. */
  lemma MenExist(t: Table)
    ensures |Men(t)| > 0 <==> exists i :: 0 <= i < |t| && IsMale(t[i])
  {
    WhereSubset(t, IsMale);
    WhereComplete(t, IsMale);
    assert |Men(t)| > 0 ==> Men(t)[0] in t;
  }

  /** When there is a man, the average age of men lies between the youngest and the oldest man's age. */
  lemma AverageAgeMenBetween(t: Table, i: nat)
    requires i < |t| && IsMale(t[i])
    ensures AverageAgeMen(t).Some?
    ensures exists j :: 0 <= j < |t| && IsMale(t[j]) && t[j].age as real <= AverageAgeMen(t).value
    ensures exists j :: 0 <= j < |t| && IsMale(t[j]) && AverageAgeMen(t).value <= t[j].age as real
  {
    var ages := Map(Men(t), AgeOf);
    WhereSubset(t, IsMale);
    WhereComplete(t, IsMale);
    assert t[i] in Men(t);
    MeanBetweenMinAndMax(ages);
    var lo :| 0 <= lo < |ages| && ages[lo] == MinOf(ages);
    var hi :| 0 <= hi < |ages| && ages[hi] == MaxOf(ages);
    var a :| 0 <= a < |t| && t[a] == Men(t)[lo];
    var b :| 0 <= b < |t| && t[b] == Men(t)[hi];
    assert t[a].age as real <= AverageAgeMen(t).value;
    assert AverageAgeMen(t).value <= t[b].age as real;
  }

  /**
   `percentage_bachelors`: the share of rows whose education is "Bachelors",
   as a percentage; NaN for an empty table.
   */
  function PercentageBachelors(t: Table): (r: Option<real>)
    ensures r.None? <==> |t| == 0
    ensures r.Some? ==> r.value * |t| as real == 100.0 * |Where(t, IsBachelors)| as real
    ensures r.Some? ==> 0.0 <= r.value <= 100.0
  {
    Percent(|Where(t, IsBachelors)|, |t|)
  }

  /** `higher_education`: rows whose education is Bachelors, Masters or Doctorate. */
  function HigherEducation(t: Table): Table
  {
    Where(t, IsHigherEducation)
  }

  /** `lower_education`: all other rows. */
  function LowerEducation(t: Table): Table
  {
    Where(t, IsLowerEducation)
  }

  /** The two education groups partition the table: every row is in exactly one, and their sizes add up. */
  lemma EducationPartition(t: Table)
    ensures |HigherEducation(t)| + |LowerEducation(t)| == |t|
    ensures forall i :: 0 <= i < |t| ==> (t[i] in HigherEducation(t) <==> IsHigherEducation(t[i]))
    ensures forall i :: 0 <= i < |t| ==> (t[i] in HigherEducation(t) <==> t[i] !in LowerEducation(t))
  {
    WherePartition(t, IsHigherEducation, IsLowerEducation);
    WhereSubset(t, IsHigherEducation);
    WhereComplete(t, IsHigherEducation);
    WhereSubset(t, IsLowerEducation);
    WhereComplete(t, IsLowerEducation);
  }

  /** Share of `>50K` rows in a group, as a percentage; NaN for an empty group. */
  function RichShare(g: Table): (r: Option<real>)
    ensures r.None? <==> |g| == 0
    ensures r.Some? ==> r.value * |g| as real == 100.0 * |Where(g, IsRich)| as real
    ensures r.Some? ==> 0.0 <= r.value <= 100.0
  {
    Percent(|Where(g, IsRich)|, |g|)
  }

  /** `higher_education_rich`: percentage of the advanced-education rows earning `>50K`. */
  function HigherEducationRich(t: Table): (r: Option<real>)
    ensures r.None? <==> forall i :: 0 <= i < |t| ==> !IsHigherEducation(t[i])
    ensures r.Some? ==> 0.0 <= r.value <= 100.0
    ensures r.Some? ==> IsPercentOf(r.value, |Where(HigherEducation(t), IsRich)|, |HigherEducation(t)|)
  {
    WhereSubset(t, IsHigherEducation);
    WhereComplete(t, IsHigherEducation);
    assert |HigherEducation(t)| > 0 ==> HigherEducation(t)[0] in t;
    RichShare(HigherEducation(t))
  }

  /** `lower_education_rich`: percentage of the remaining rows earning `>50K`. */
  function LowerEducationRich(t: Table): (r: Option<real>)
    ensures r.None? <==> forall i :: 0 <= i < |t| ==> IsHigherEducation(t[i])
    ensures r.Some? ==> 0.0 <= r.value <= 100.0
    ensures r.Some? ==> IsPercentOf(r.value, |Where(LowerEducation(t), IsRich)|, |LowerEducation(t)|)
  {
    WhereSubset(t, IsLowerEducation);
    WhereComplete(t, IsLowerEducation);
    assert |LowerEducation(t)| > 0 ==> LowerEducation(t)[0] in t;
    RichShare(LowerEducation(t))
  }

  /** `min_work_hours`: the fewest weekly hours any row works, attained by some row. */
  function MinWorkHours(t: Table): (m: int)
    requires |t| > 0
    ensures forall i :: 0 <= i < |t| ==> m <= t[i].hoursPerWeek
    ensures exists i :: 0 <= i < |t| && t[i].hoursPerWeek == m
  {
    var hours := Map(t, HoursOf);
    var k :| 0 <= k < |hours| && hours[k] == MinOf(hours);
    assert t[k].hoursPerWeek == MinOf(hours);
    MinOf(hours)
  }

  /** `num_min_workers`: the rows working exactly the minimum hours; never empty. */
  function MinWorkers(t: Table): (w: Table)
    requires |t| > 0
    ensures |w| > 0
    ensures forall i :: 0 <= i < |w| ==> w[i] in t && w[i].hoursPerWeek == MinWorkHours(t)
    ensures forall i :: 0 <= i < |t| && t[i].hoursPerWeek == MinWorkHours(t) ==> t[i] in w
    ensures forall x :: multiset(w)[x] == if x.hoursPerWeek == MinWorkHours(t) then multiset(t)[x] else 0
  {
    var m := MinWorkHours(t);
    var p := (r: Record) => r.hoursPerWeek == m;
    var w := Where(t, p);
    WhereSubset(t, p);
    WhereComplete(t, p);
    WhereMultiset(t, p);
    var k :| 0 <= k < |t| && t[k].hoursPerWeek == m;
    assert t[k] in w;
    w
  }

  /** `rich_percentage`: percentage of the minimum-hours workers earning `>50K`. */
  function RichPercentage(t: Table): (r: real)
    requires |t| > 0
    ensures 0.0 <= r <= 100.0
    ensures IsPercentOf(r, |Where(MinWorkers(t), IsRich)|, |MinWorkers(t)|)
  {
    RichShare(MinWorkers(t)).value
  }

  /** `df['native-country']`. */
  function Countries(t: Table): seq<string>
  {
    Map(t, CountryOf)
  }

  /** `df[df['salary'] == '>50K']['native-country']`. */
  function RichCountries(t: Table): seq<string>
  {
    Map(Where(t, IsRich), CountryOf)
  }

  /** Number of rows from country `c`. */
  function CountryTotal(t: Table, c: string): nat
  {
    multiset(Countries(t))[c]
  }

  /** Number of `>50K` rows from country `c`. */
  function RichCountryTotal(t: Table, c: string): nat
  {
    multiset(RichCountries(t))[c]
  }

  /** A country occurs among the rich rows' countries exactly when some `>50K` row is from it. */
  lemma RichCountriesIndex(t: Table, c: string)
    ensures c in RichCountries(t) <==> exists i :: 0 <= i < |t| && IsRich(t[i]) && t[i].nativeCountry == c
  {
    var rich := Where(t, IsRich);
    WhereSubset(t, IsRich);
    WhereComplete(t, IsRich);
    if c in RichCountries(t) {
      var k :| 0 <= k < |rich| && RichCountries(t)[k] == c;
      assert rich[k] in t;
      var i :| 0 <= i < |t| && t[i] == rich[k];
      assert IsRich(t[i]) && t[i].nativeCountry == c;
    }
    if exists i :: 0 <= i < |t| && IsRich(t[i]) && t[i].nativeCountry == c {
      var i :| 0 <= i < |t| && IsRich(t[i]) && t[i].nativeCountry == c;
      assert t[i] in rich;
      var k :| 0 <= k < |rich| && rich[k] == t[i];
      assert RichCountries(t)[k] == c;
    }
  }

  /**
   `earning_by_country`: for each country with at least one `>50K` row, the
   percentage of its rows earning `>50K`; countries without such rows come
   out of the aligned division as NaN and are dropped.
   */
  function EarningByCountry(t: Table): (r: seq<(string, real)>)
    ensures forall i, j :: 0 <= i < j < |r| ==> r[i].0 != r[j].0
  {
    var all := Counts(Countries(t));
    DistinctKeysIndices(all);
    DropMissingDistinct(Divide(Counts(RichCountries(t)), all));
    DropMissing(Divide(Counts(RichCountries(t)), all))
  }

  /**
   Every listed country has a `>50K` row, and its ratio is its number of
   `>50K` rows as a percentage of its number of rows.
   */
  lemma EarningByCountryRatios(t: Table)
    ensures forall i :: 0 <= i < |EarningByCountry(t)| ==>
      EarningByCountry(t)[i].0 in RichCountries(t)
      && IsPercentOf(EarningByCountry(t)[i].1,
                     RichCountryTotal(t, EarningByCountry(t)[i].0),
                     CountryTotal(t, EarningByCountry(t)[i].0))
  {
    DivideDropEntries(Counts(RichCountries(t)), Counts(Countries(t)));
  }

  /** Every ratio lies in (0, 100]. */
  lemma EarningByCountryBounds(t: Table)
    ensures forall i :: 0 <= i < |EarningByCountry(t)| ==>
      0.0 < EarningByCountry(t)[i].1 <= 100.0
  {
    var r := EarningByCountry(t);
    EarningByCountryRatios(t);
    forall i | 0 <= i < |r|
      ensures 0.0 < r[i].1 <= 100.0
    {
      WhereMapCount(t, IsRich, CountryOf, r[i].0);
      PercentOfPositivePart(r[i].1, RichCountryTotal(t, r[i].0), CountryTotal(t, r[i].0));
    }
  }

  /** Every country with a `>50K` row is listed. */
  lemma EarningByCountryCovers(t: Table, i: nat)
    requires i < |t| && IsRich(t[i])
    ensures exists j :: 0 <= j < |EarningByCountry(t)| && EarningByCountry(t)[j].0 == t[i].nativeCountry
  {
    var c := t[i].nativeCountry;
    RichCountriesIndex(t, c);
    assert c in RichCountries(t);
    assert c in Keys(Counts(RichCountries(t)));
    assert Countries(t)[i] == c;
    assert c in Countries(t);
    assert c in Keys(Counts(Countries(t)));
    var l := DropMissing(Divide(Counts(RichCountries(t)), Counts(Countries(t))));
    assert EarningByCountry(t) == l;
    DivideDropCovers(Counts(RichCountries(t)), Counts(Countries(t)), c);
    var j :| 0 <= j < |l| && l[j].0 == c;
  }

  /**
   `highest_earning_country` with `highest_earning_country_percentage`: a
   listed country whose ratio is at least every other listed country's;
   `None` (pandas raises) when no row earns `>50K`.
   */
  function HighestEarningCountry(t: Table): (r: Option<(string, real)>)
    ensures r.None? <==> forall i :: 0 <= i < |t| ==> !IsRich(t[i])
    ensures r.Some? ==> r.value in EarningByCountry(t)
    ensures r.Some? ==> forall i :: 0 <= i < |EarningByCountry(t)| ==> EarningByCountry(t)[i].1 <= r.value.1
  {
    var l := EarningByCountry(t);
    EarningByCountryRatios(t);
    assert |l| > 0 ==> l[0].0 in RichCountries(t);
    RichCountriesIndex(t, if |l| > 0 then l[0].0 else "");
    assert forall i :: 0 <= i < |t| && IsRich(t[i]) ==> |l| > 0 by {
      forall i | 0 <= i < |t| && IsRich(t[i]) ensures |l| > 0 {
        EarningByCountryCovers(t, i);
      }
    }
    ArgMax(l)
  }

  /** The reported country has a `>50K` row, and its percentage is its share of `>50K` rows, in (0, 100]. */
  lemma HighestEarningCountryRatio(t: Table)
    requires exists i :: 0 <= i < |t| && IsRich(t[i])
    ensures HighestEarningCountry(t).Some?
    ensures HighestEarningCountry(t).value.0 in RichCountries(t)
    ensures 0.0 < HighestEarningCountry(t).value.1 <= 100.0
    ensures IsPercentOf(HighestEarningCountry(t).value.1,
                        RichCountryTotal(t, HighestEarningCountry(t).value.0),
                        CountryTotal(t, HighestEarningCountry(t).value.0))
  {
    var j :| 0 <= j < |t| && IsRich(t[j]);
    assert HighestEarningCountry(t).Some? by {
      assert !IsRich(t[j]) ==> false;
    }
    var l := EarningByCountry(t);
    EarningByCountryRatios(t);
    EarningByCountryBounds(t);
    var k :| 0 <= k < |l| && l[k] == HighestEarningCountry(t).value;
  }

  /** `india_rich`: rows from India earning `>50K`. */
  function IndiaRich(t: Table): Table
  {
    Where(t, IsIndiaRich)
  }

  /** How many `india_rich` rows have occupation `o`. */
  function IndiaRichOccupationTotal(t: Table, o: string): nat
  {
    multiset(Map(IndiaRich(t), OccupationOf))[o]
  }

  /**
   `top_IN_occupation`: `None` exactly when no row is from India earning
   `>50K`; otherwise an occupation of such a row that is at least as frequent
   among them as any other, the first in string order among equally frequent ones.
   */
  function TopInOccupation(t: Table): (r: Option<string>)
    ensures r.None? <==> forall i :: 0 <= i < |t| ==> !IsIndiaRich(t[i])
    ensures r.Some? ==> exists i :: 0 <= i < |t| && IsIndiaRich(t[i]) && t[i].occupation == r.value
    ensures r.Some? ==> forall i :: 0 <= i < |t| && IsIndiaRich(t[i]) ==>
      IndiaRichOccupationTotal(t, t[i].occupation) <= IndiaRichOccupationTotal(t, r.value)
    ensures r.Some? ==> forall i ::
      (0 <= i < |t| && IsIndiaRich(t[i])
       && IndiaRichOccupationTotal(t, t[i].occupation) == IndiaRichOccupationTotal(t, r.value))
      ==> LexLe(r.value, t[i].occupation)
  {
    WhereSubset(t, IsIndiaRich);
    WhereComplete(t, IsIndiaRich);
    if |IndiaRich(t)| == 0 then None
    else
      IndiaRichModeIsOccupation(t);
      assert forall i :: 0 <= i < |t| && IsIndiaRich(t[i]) ==>
        IndiaRichOccupationTotal(t, t[i].occupation) <= IndiaRichOccupationTotal(t, IndiaRichMode(t))
        && (IndiaRichOccupationTotal(t, t[i].occupation) == IndiaRichOccupationTotal(t, IndiaRichMode(t))
            ==> LexLe(IndiaRichMode(t), t[i].occupation)) by {
        forall i | 0 <= i < |t| && IsIndiaRich(t[i])
          ensures IndiaRichOccupationTotal(t, t[i].occupation) <= IndiaRichOccupationTotal(t, IndiaRichMode(t))
          ensures IndiaRichOccupationTotal(t, t[i].occupation) == IndiaRichOccupationTotal(t, IndiaRichMode(t))
                  ==> LexLe(IndiaRichMode(t), t[i].occupation)
        {
          IndiaRichModeIsMostFrequent(t, i);
        }
      }
      Some(IndiaRichMode(t))
  }

  /** `india_rich['occupation'].mode()[0]` of a non-empty `india_rich`. */
  function IndiaRichMode(t: Table): string
    requires |IndiaRich(t)| > 0
  {
    Mode(Map(IndiaRich(t), OccupationOf))
  }

  /** The mode is the occupation of some `india_rich` row. */
  lemma IndiaRichModeIsOccupation(t: Table)
    requires |IndiaRich(t)| > 0
    ensures exists i :: 0 <= i < |t| && IsIndiaRich(t[i]) && t[i].occupation == IndiaRichMode(t)
  {
    var india := IndiaRich(t);
    var occupations := Map(india, OccupationOf);
    WhereSubset(t, IsIndiaRich);
    var k :| 0 <= k < |occupations| && occupations[k] == IndiaRichMode(t);
    assert india[k] in t;
    var j :| 0 <= j < |t| && t[j] == india[k];
    assert IsIndiaRich(t[j]) && t[j].occupation == IndiaRichMode(t);
  }

  /**
   No occupation of an `india_rich` row is more frequent among them than the
   mode, and one as frequent does not sort before it.
   */
  lemma IndiaRichModeIsMostFrequent(t: Table, i: nat)
    requires |IndiaRich(t)| > 0
    requires i < |t| && IsIndiaRich(t[i])
    ensures IndiaRichOccupationTotal(t, t[i].occupation) <= IndiaRichOccupationTotal(t, IndiaRichMode(t))
    ensures IndiaRichOccupationTotal(t, t[i].occupation) == IndiaRichOccupationTotal(t, IndiaRichMode(t))
            ==> LexLe(IndiaRichMode(t), t[i].occupation)
  {
    var india := IndiaRich(t);
    var occupations := Map(india, OccupationOf);
    WhereComplete(t, IsIndiaRich);
    assert t[i] in india;
    var q :| 0 <= q < |india| && india[q] == t[i];
    assert occupations[q] == t[i].occupation;
  }
}
