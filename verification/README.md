# Demographic data analyzer — a Dafny model

`calculate_demographic_data` reads a census table (the "adult" data set: age,
work class, education, sex, race, weekly hours, native country, salary band
and so on). It turns two columns into numbers, drops every incomplete row and
reports ten statistics:

- the count of each race;
- the average age of men;
- the share of Bachelors;
- the share earning `>50K` with and without advanced education;
- the minimum weekly hours, and the share earning `>50K` among those who work them;
- the country with the highest share earning `>50K`, and that share;
- the most common occupation among India-born people earning `>50K`.

This project models that pipeline as pure functions over an immutable
sequence of rows and proves what each statistic means.

- `Wrappers`: `Option` (pandas' NaN / Python's `None`) and `Result`.
- `Sequences`: building blocks.
  - Boolean-mask selection (`Where`) and column projection (`Map`).
  - Minimum, maximum, sum and mean.
  - Exact percentages and arg-max.
- `Strings`: Python's ordering of `str` values. `mode()` returns its modes sorted, so `[0]` is the first in this order.
- `ValueCounts`: `value_counts` as a listing of (value, count) entries.
  - A stable descending sort of that listing.
  - `mode()[0]`.
  - Division of two count series aligned on their values, followed by `dropna`.
- `Census`: the row as read (`RawRecord`, every field optional) and the cleaned row (`Record`), with cleaning (`Clean`).
- `Statistics`: the ten statistics.
- `Report`: the whole function, with the two inputs on which pandas raises `ValueError` as errors.

Percentages are exact `real` quotients of integer counts. A mean over an
empty selection is `None`, where pandas gives NaN. The source's behaviour is
followed where a plain-language description of it would differ:

- A country with no `>50K` row is missing from the numerator of the aligned
  division. Its ratio is therefore NaN and `dropna` removes it: such a
  country is not listed with ratio 0.
- `mode()[0]` is not an arbitrary mode. It is the most frequent occupation
  that comes first in string order.
- On a table with no complete row, `int(NaN)` at line 37 raises. When no row
  earns `>50K`, `idxmax` of an empty series at line 47 raises. These become
  `EmptyTable` and `NoRichRows`. Every other degenerate statistic is NaN,
  modelled as `None`, not an error.

## Model

| member | source | states |
|---|---|---|
| Census.ToRecord | demographic_data_analyzer.py:13-17 | a raw row yields a clean row exactly when none of its fifteen fields is missing, and that clean row converts back to the same raw row |
| Census.Clean | demographic_data_analyzer.py:16-17 | the cleaned table is no longer than the input and every cleaned row comes, unaltered, from an input row |
| Census.KeptIndices | demographic_data_analyzer.py:17 | the positions kept by `dropna` are strictly increasing, each names a complete row, and every complete row's position is among them |
| Census.CleanKeepsCompleteRows | demographic_data_analyzer.py:16-17 | the k-th cleaned row is, field for field, the k-th complete input row: cleaning keeps exactly the complete rows, in their original order |
| Census.CleanEmpty | demographic_data_analyzer.py:17 | cleaning leaves no row exactly when no input row is complete |
| Sequences.Map | demographic_data_analyzer.py:20-23 | selecting a column (`df['race']`, `df['age']`, `df['native-country']`, ...) gives one value per row, in row order, each the row's field |
| Sequences.Where | demographic_data_analyzer.py:23 | a boolean-mask selection is no longer than its input and every selected row satisfies the mask |
| Sequences.WhereMultiset | demographic_data_analyzer.py:23-40 | a boolean-mask selection holds each row satisfying the mask exactly as many times as the input does, and no other row |
| Sequences.WhereSubset | demographic_data_analyzer.py:29-30 | every selected row is a row of the input |
| Sequences.WhereComplete | demographic_data_analyzer.py:29-30 | every input row that satisfies the mask is selected |
| Sequences.WherePartition | demographic_data_analyzer.py:29-30 | a mask and its negation select rows whose counts add up to the input's length |
| Sequences.WhereMapCount | demographic_data_analyzer.py:44-45 | a value occurs in the column of a selection at most as often as in the column of the whole table |
| Sequences.MinOf | demographic_data_analyzer.py:37 | `Series.min` of a non-empty series is one of its elements and no element is smaller |
| Sequences.MaxOf | demographic_data_analyzer.py:23 | the largest age among men, the upper end of the bound on `average_age_men`: one of the series' elements, and no element is larger |
| Sequences.Mean | demographic_data_analyzer.py:23 | `Series.mean` is NaN exactly for an empty series; otherwise, times the length, it gives the sum |
| Sequences.MeanBetweenMinAndMax | demographic_data_analyzer.py:23 | the mean of a non-empty series lies between its minimum and its maximum |
| Sequences.Percent | demographic_data_analyzer.py:26 | `mask.mean() * 100` with k true entries out of n is NaN exactly when n = 0; otherwise it is k out of n as a percentage, in [0, 100], 0 exactly when k = 0 and 100 exactly when k = n |
| Sequences.PercentOfPositivePart | demographic_data_analyzer.py:44-45 | a percentage of a part that is positive and at most the whole lies in (0, 100] |
| Sequences.ArgMax | demographic_data_analyzer.py:47-48 | `idxmax` with `max` is absent exactly for an empty series; otherwise it is one of the entries and its value is at least every entry's value |
| Strings.LexLeTotal | demographic_data_analyzer.py:52 | any two Python strings are ordered one way or the other |
| Strings.LexLeTransitive | demographic_data_analyzer.py:52 | Python's string order is transitive |
| Strings.LexLeAntisymmetric | demographic_data_analyzer.py:52 | two strings each at most the other are equal |
| ValueCounts.Bump | demographic_data_analyzer.py:20 | counting one more occurrence of x raises x's count by one, or adds an entry for x, and leaves every other count, the distinctness of values and the positivity of counts intact |
| ValueCounts.Counts | demographic_data_analyzer.py:20 | `value_counts` lists each distinct value of the column exactly once, with a positive count equal to its number of occurrences; values with no occurrence are not listed, and the counts sum to the column's length |
| ValueCounts.CountsEntries | demographic_data_analyzer.py:20 | every entry of `value_counts` names a value of the column and lists its number of occurrences |
| ValueCounts.InsertDescending | demographic_data_analyzer.py:20 | inserting an entry adds exactly that entry (as a multiset), adds its value to the listed values, adds its count to the total and keeps values distinct |
| ValueCounts.InsertDescendingSorted | demographic_data_analyzer.py:20 | insertion into a listing sorted by descending count keeps it sorted |
| ValueCounts.SortDescending | demographic_data_analyzer.py:20 | `sort_values(ascending=False)` returns a permutation of the listing, with counts non-increasing, the same values, the same total and distinct values kept distinct |
| ValueCounts.BestEntry | demographic_data_analyzer.py:52 | the chosen entry is in the listing, has the greatest count, and among entries with that count has the value first in string order |
| ValueCounts.Mode | demographic_data_analyzer.py:52 | `mode()[0]` of a non-empty series is one of its values and occurs at least as often as every value; among equally frequent values it comes first in string order |
| ValueCounts.Divide | demographic_data_analyzer.py:44-45 | the aligned division yields one entry per denominator value; it is a number exactly when the value is also in the numerator, and then it is the numerator's count as a percentage of the denominator's |
| ValueCounts.DropMissing | demographic_data_analyzer.py:46 | `dropna` keeps exactly the entries that carry a number, with their numbers |
| ValueCounts.DropMissingDistinct | demographic_data_analyzer.py:46 | `dropna` keeps distinct index values distinct |
| ValueCounts.DivideDropEntries | demographic_data_analyzer.py:44-46 | every surviving entry names a value in both series and is its numerator count as a percentage of its denominator count |
| ValueCounts.DivideDropCovers | demographic_data_analyzer.py:44-46 | every value in both series survives the division and `dropna` |
| Statistics.RaceCount | demographic_data_analyzer.py:20 | `race_count` lists every race of the table, each once, with a positive count equal to its number of rows; the counts sum to the number of rows and never increase along the listing |
| Statistics.AverageAgeMen | demographic_data_analyzer.py:23 | `average_age_men` is NaN exactly when the table has no male row; otherwise, times the number of men, it gives the men's total age |
| Statistics.MenExist | demographic_data_analyzer.py:23 | the male rows selected for `average_age_men` are non-empty exactly when some row is male |
| Statistics.AverageAgeMenBetween | demographic_data_analyzer.py:23 | when a male row exists, the average age of men is at least some man's age and at most some man's age |
| Statistics.PercentageBachelors | demographic_data_analyzer.py:26 | `percentage_bachelors` is NaN exactly for an empty table; otherwise it is the Bachelors rows as a percentage of all rows, in [0, 100] |
| Statistics.EducationPartition | demographic_data_analyzer.py:29-30 | `higher_education` (Statistics.HigherEducation) and `lower_education` (Statistics.LowerEducation) partition the table: a row is in the first exactly when its education is Bachelors, Masters or Doctorate, in exactly one of the two, and their sizes sum to the table's |
| Statistics.RichShare | demographic_data_analyzer.py:33-34 | the `>50K` share of a group is NaN exactly for an empty group; otherwise it is the `>50K` rows as a percentage of the group, in [0, 100] |
| Statistics.HigherEducationRich | demographic_data_analyzer.py:33 | `higher_education_rich` is NaN exactly when no row has advanced education; otherwise it is the `>50K` rows of `higher_education` as a percentage of `higher_education`, in [0, 100] |
| Statistics.LowerEducationRich | demographic_data_analyzer.py:34 | `lower_education_rich` is NaN exactly when every row has advanced education; otherwise it is the `>50K` rows of `lower_education` as a percentage of `lower_education`, in [0, 100] |
| Statistics.MinWorkHours | demographic_data_analyzer.py:37 | on a non-empty table, `min_work_hours` is at most every row's weekly hours and equals some row's |
| Statistics.MinWorkers | demographic_data_analyzer.py:40 | `num_min_workers` is non-empty and holds each row of the table working the minimum hours exactly as many times as the table does, and no other row |
| Statistics.RichPercentage | demographic_data_analyzer.py:41 | `rich_percentage` is always defined on a non-empty table; it is the `>50K` rows of `num_min_workers` as a percentage of `num_min_workers`, in [0, 100] |
| Statistics.RichCountriesIndex | demographic_data_analyzer.py:44 | a country appears among the `>50K` rows' countries exactly when some `>50K` row is from it |
| Statistics.EarningByCountry | demographic_data_analyzer.py:44-46 | `earning_by_country` lists no country twice |
| Statistics.EarningByCountryRatios | demographic_data_analyzer.py:44-46 | every listed country has a `>50K` row, and its ratio is its `>50K` rows as a percentage of its rows |
| Statistics.EarningByCountryBounds | demographic_data_analyzer.py:44-46 | every listed ratio lies in (0, 100] |
| Statistics.EarningByCountryCovers | demographic_data_analyzer.py:44-46 | every country with a `>50K` row is listed |
| Statistics.HighestEarningCountry | demographic_data_analyzer.py:47-48 | absent exactly when no row earns `>50K`; otherwise a listed country whose ratio is at least every listed country's ratio |
| Statistics.HighestEarningCountryRatio | demographic_data_analyzer.py:47-48 | when some row earns `>50K`, a country is reported; it has a `>50K` row, and its percentage is its `>50K` share, in (0, 100] |
| Statistics.TopInOccupation | demographic_data_analyzer.py:51-52 | `top_IN_occupation` is `None` exactly when no row is from India and earns `>50K` (`india_rich`, Statistics.IndiaRich, is empty); otherwise it is the occupation of such a row, at least as frequent among them as every other, and the first in string order among the equally frequent |
| Statistics.IndiaRichModeIsOccupation | demographic_data_analyzer.py:52 | the mode is the occupation of some India-born `>50K` row |
| Statistics.IndiaRichModeIsMostFrequent | demographic_data_analyzer.py:52 | no occupation of an India-born `>50K` row is more frequent among them than the mode, and none equally frequent sorts before it |
| Report.Summarize | demographic_data_analyzer.py:19-77 | the statistics of a cleaned table fail with `EmptyTable` exactly when it is empty and with `NoRichRows` exactly when it has rows but none earns `>50K`; otherwise they succeed |
| Report.CalculateDemographicData | demographic_data_analyzer.py:4-77 | the report fails with `EmptyTable` exactly when no row is complete, and with `NoRichRows` exactly when some row is complete but none of the cleaned rows earns `>50K`; otherwise it succeeds |
| Report.ReportRaceCountTotal | demographic_data_analyzer.py:20 | a table with a `>50K` row is summarized, and its reported race counts add up to its number of rows |
| Report.ReportMinWorkHours | demographic_data_analyzer.py:37 | the reported minimum hours are at most every row's hours and equal some row's |
| Report.ReportRichPercentage | demographic_data_analyzer.py:39-41 | the reported `>50K` share among minimum-hours workers lies in [0, 100] |
| Report.ReportHighestEarningCountry | demographic_data_analyzer.py:43-48 | the reported highest percentage is the reported country's `>50K` share, lies in (0, 100] and is at least every country's ratio |
| Report.ReportTopInOccupation | demographic_data_analyzer.py:51-52 | the reported occupation is missing exactly when no row is from India and earns `>50K` |

## Left out

- Reading `adult.data.csv` from a fixed path and naming its columns (lines 6-10) is file input. The model starts from rows already split into fields. A header line read as data has the non-numeric age "age", and cleaning drops it.
- The string-to-number conversion of `pd.to_numeric` (lines 13-14) belongs to the library. Its result is given to the model as `Option<int>`. Numbers with a fractional part are not modelled. The four numeric columns the source never coerces (`fnlwgt`, `education-num`, `capital-gain`, `capital-loss`) are kept as text, since no statistic reads them.
- `round(..., 1)` (lines 23, 26, 33-34, 41, 48) is floating-point rounding. Results are exact real quotients.
- Console output and the `print_data` flag (lines 4, 54-64) only print values the model already computes.
- Tie order of `value_counts().sort_values` and of `idxmax` (lines 20, 47) follows pandas' index order. The model promises non-increasing counts and "some maximiser". Its own choices are stable insertion order and the first maximum in first-occurrence order.
- The returned dictionary and pandas `Series` are modelled as a `Report` datatype and as sequences of (value, count) entries.
- Statistics.AverageAgeMen: states when the result is NaN and the sum relation. The bounds between the youngest and oldest man are in Statistics.AverageAgeMenBetween.
- Report.Summarize: states when each outcome occurs. What each field means is stated on the statistic that computes it. The `Report*` lemmas restate only the race total, the minimum hours, the minimum-hours share, the top country and when the occupation is missing.
- Report.CalculateDemographicData: states when each outcome occurs. What each field means is stated on the statistic that computes it.
