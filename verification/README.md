# Freeze-thaw cycle statistics — a Dafny model

This project models the computational core of `opened_app.py`, a small
Streamlit application that reports freeze-thaw cycle counts for a monitoring
station. For a target station (a row with state, county, latitude and
longitude), the program:

- looks up the station's row in every season's sheet;
- builds a series of (season, total cycles, damaging cycles) points, most
  recent season first;
- reports the mean and the coefficient of variation (COV) over all years and
  over the last five years;
- classifies each COV into a Low / Moderate / High variability band.

Around the analysis it also cleans the list of states offered for a season,
picks the five most recent seasons for the season selector, and computes the
damaging share shown in the analysis summary.

Modules, following the program's structure:

- `Wrappers`: `Option`.
- `Text`: Python's `str.strip` (the full `str.isspace` set) and ASCII
  upper-casing. `Normalize` is the key used for the State/County join.
- `Lex`: Python's code-point lexicographic string order, which orders season
  labels. It is a strict total order.
- `Sorting`: sorting by a string key, in descending order.
- `Seqs`: boolean-mask filtering; `np.argmin` (first least element); their
  combination `FirstMin`; and `FilterMap`, which keeps the values of the
  elements mapped to `Some`.
- `Records`, `Matching`: one sheet row, the join condition, and the choice
  of the first nearest matching row.
- `Stats`: sum, mean, population variance, and the guarded COV.
- `Variability`: the three bands and their icons.
- `Aggregate`: `calculate_statistics`, i.e. the per-season points, the
  sorted series, the two windows and the result record.
- `States`: `get_states_for_season`.
- `App`: the recent-seasons pick and the damage-percentage summary from
  `main`.

Representation choices:

- The season loader is a parameter `string -> Option<seq<Record>>`. `None`
  stands for a load that raised, which the program skips.
- Numbers are exact reals. The COV involves a square root, so the model
  keeps it as its square (`Stats.CovSquared`). `Stats.CovIsStdOverMean` shows
  that it is the square of std / mean × 100 for the non-negative std with
  std² = variance. `Variability.ClassifySquaredAgrees` shows that banding the
  square gives the band of the COV itself.
- Distances are compared as squared Euclidean distances in raw degrees.
  A square root does not change which row is nearest.
- The standard deviation is numpy's default population deviation
  (`np.std`, ddof = 0). For totals 50 and 60 this gives a COV of about
  9.09 %, in the Low band (`App.TwoSeasonExample`).

## Model

| member | source | states |
|---|---|---|
| Text.LeadingSpaces | opened_app.py:60-61 | the count of leading characters removed by `lstrip`: all of them are white space and the next character, if any, is not |
| Text.TrailingSpaces | opened_app.py:60-61 | the count of trailing characters removed by `rstrip`: all of them are white space and the character before them, if any, is not |
| Text.TrimStart | opened_app.py:60-61 | the result is a suffix of the input; everything removed is white space; the result does not start with white space |
| Text.TrimEnd | opened_app.py:60-61 | the result is a prefix of the input; everything removed is white space; the result does not end with white space |
| Text.Strip | opened_app.py:60-61 | the stripped name is no longer than the input and neither starts nor ends with white space |
| Text.StripKeepsInnerSlice | opened_app.py:60-61 | `strip` keeps the contiguous slice that starts after the leading white space, and removes only white space on either side of it |
| Text.StripIdempotent | opened_app.py:35-37 | stripping an already stripped name changes nothing |
| Text.UpperChar | opened_app.py:60-61 | lower-case ASCII letters map to their upper-case letter; every other character is unchanged |
| Text.Upper | opened_app.py:60-61 | upper-casing keeps the length and maps each character independently |
| Text.Normalize | opened_app.py:60-61 | the ASCII join key is never longer than the name |
| Text.NormalizeKeepsInnerSlice | opened_app.py:60-61 | the ASCII join key is the slice `strip` keeps with each character upper-cased: only white space lies around that slice, and the key neither starts nor ends with white space |
| Text.NormalizeIsNormalForm | opened_app.py:60-61 | a join key is stripped and upper-cased: stripping it or upper-casing it again changes nothing |
| Text.NormalizeIdempotent | opened_app.py:60-61 | normalising a normalised name changes nothing, so a row already in normal form matches itself |
| Lex.LessIrreflexive | opened_app.py:99 | no season label sorts before itself |
| Lex.LessTransitive | opened_app.py:99 | the string order used to sort seasons is transitive |
| Lex.LessTotal | opened_app.py:99 | any two different season labels are ordered one way or the other |
| Sorting.Insert | opened_app.py:98-99 | inserting into a descending list keeps it descending and adds exactly one copy of the element |
| Sorting.SortDesc | opened_app.py:98-99 | the series sorted by season is descending and a permutation of its input |
| Seqs.Filter | opened_app.py:59-62 | the mask keeps exactly the elements that satisfy the condition, and nothing else |
| Seqs.FilterCounts | opened_app.py:59-62 | the mask keeps every copy of an element that satisfies the condition and no copy of one that does not |
| Seqs.ArgMin | opened_app.py:74 | `np.argmin` returns an index of a least cost, and every earlier element costs strictly more |
| Seqs.FirstMin | opened_app.py:64-77 | None exactly when nothing satisfies the condition; otherwise an element that satisfies it and costs no more than any other such element |
| Seqs.ArgMinOfFilter | opened_app.py:66-75 | argmin over the filtered rows picks, in the original order, the first least-cost row that satisfies the condition |
| Seqs.FirstMinIsFirst | opened_app.py:64-77 | the element FirstMin returns sits at the first least-cost position among those satisfying the condition |
| Seqs.FirstMinWhereIsUnique | opened_app.py:74-75 | the first least-cost position is unique |
| Seqs.ArgMinOrderInvariant | opened_app.py:69-74 | `np.argmin` under two costs that order the elements alike returns the same index |
| Seqs.FirstMinOrderInvariant | opened_app.py:64-77 | the first least-cost element satisfying the condition is the same under two costs that order the elements alike |
| Seqs.FilterMap | opened_app.py:52-90 | one value is collected per element that yields one, and each value occurs as many times as elements yield it |
| Seqs.YieldsPositive | opened_app.py:52-90 | a value is yielded a positive number of times exactly when some element yields it |
| Seqs.InFilterMap | opened_app.py:52-90 | a value is collected exactly when some element yields it |
| Records.SqDistance | opened_app.py:69-71 | the squared distance between the row's and the target's coordinates is never negative |
| Matching.Matches | opened_app.py:59-62 | the join condition on normalised State and County; `MatchesIsEquivalence` proves it an equivalence and `MatchesNormalizedTarget` shows normalising the target first changes nothing |
| Matching.MatchesIsEquivalence | opened_app.py:59-62 | the join condition is reflexive, symmetric and transitive |
| Matching.MatchesNormalizedTarget | opened_app.py:60-61 | surrounding whitespace and ASCII lower-case letters in the target's state and county do not change which rows match |
| Matching.MatchingRecords | opened_app.py:59-62 | the exact-match frame holds exactly the rows whose normalised State and County equal the target's, each with all its copies |
| Matching.SelectRecord | opened_app.py:58-77 | no record exactly when no row matches; otherwise a matching row of the sheet at least distance among the matching rows |
| Matching.SelectRecordIsFirstClosest | opened_app.py:66-77 | the chosen row is the earliest matching row, in sheet order, among the nearest ones; a single match is that earliest row |
| Matching.FirstClosestIsUnique | opened_app.py:74-75 | the choice among several matches is determined |
| Matching.RootsOrderLikeSquares | opened_app.py:69-74 | non-negative roots of the costs order the rows exactly as the costs do |
| Matching.SelectRecordByRootDistance | opened_app.py:69-75 | choosing by the Euclidean distance, the non-negative root of the squared one, picks the same record as choosing by the squared distance |
| Aggregate.SeasonPoint | opened_app.py:53-83 | a season contributes nothing when its load fails or no row matches; otherwise a point labelled with the season, carrying the counts of the first nearest matching row |
| Aggregate.Gather | opened_app.py:52-90 | one point per season that yields one, each taken from such a season; every season that yields a point contributes it; each point occurs as many times as seasons yield it |
| Aggregate.Recent | opened_app.py:117-118 | the recent window is the first min(5, n) values |
| Aggregate.Average | opened_app.py:106-107 | the guarded mean is 0 for an empty window and otherwise, times the count, gives the sum |
| Aggregate.Totals | opened_app.py:102-103 | the total-cycle array has one value per series point, in series order |
| Aggregate.Damaging | opened_app.py:102-103 | the damaging-cycle array has one value per series point, in series order |
| Aggregate.Summarize | opened_app.py:101-133 | the all-years figures are over the whole series and the recent ones over its first min(5, n) points; each COV is non-negative and zero below two points; years_available is the series length |
| Aggregate.Analyze | opened_app.py:52-133 | for any per-season step: None exactly when no season yields a point; otherwise 1 ≤ years_available ≤ number of seasons, equal to the number of seasons with a point; the series holds each point as many times as seasons yield it, sorted most recent first; and every figure is the one `Summarize` gives for that series |
| Aggregate.CalculateStatistics | opened_app.py:43-133 | with the program's step (load, join, nearest row): None exactly when no season's sheet loads and has a row for the target's state and county; otherwise the series is the seasons' points, most recent first, and the figures are those of that series |
| Aggregate.FewSeasonsRecentIsAll | opened_app.py:113-121 | with at most five seasons, the last-five-years figures equal the all-years figures |
| Stats.Mean | opened_app.py:106-107 | the mean of a non-empty window, times its count, is its sum |
| Stats.SquaredDeviations | opened_app.py:109-110 | a sum of squared deviations is never negative |
| Stats.Variance | opened_app.py:109-110 | the population variance is never negative |
| Stats.CovSquared | opened_app.py:109-110 | the COV is non-negative and is zero when there are fewer than two points or the mean is not positive |
| Stats.CovIsStdOverMean | opened_app.py:109-110 | under the guard, the modelled value is exactly (std / mean × 100)² for the std whose square is the variance, and that COV is non-negative |
| Stats.ConstantWindowHasZeroCov | opened_app.py:106-110 | a window of equal counts has that count as its mean and a COV of zero |
| Stats.MeanMonotone | opened_app.py:106-107 | pointwise smaller counts have a smaller mean |
| Stats.MeanNonNegative | opened_app.py:106-107 | non-negative counts have a non-negative mean |
| Variability.Classify | opened_app.py:139-146 | Low below 15, Moderate from 15 to 40 inclusive, High above 40, each as an if-and-only-if |
| Variability.Icon | opened_app.py:139-146 | each band's marker is a single character |
| Variability.IconsDistinct | opened_app.py:139-146 | two bands have the same marker exactly when they are the same band |
| Variability.ClassifySquared | opened_app.py:139-146 | the band of a COV given by its square; `ClassifySquaredAgrees` proves it equals the band of the COV itself |
| Variability.ClassifySquaredAgrees | opened_app.py:139-146 | for a non-negative COV, banding its square with thresholds 225 and 1600 gives the same band |
| States.InsertUnique | opened_app.py:36-38 | adding a name to a sorted duplicate-free list keeps it sorted and duplicate-free and adds exactly that name |
| States.Dedup | opened_app.py:36-38 | `sorted(set(...))` is strictly ascending and holds exactly the input's names |
| States.CleanCell | opened_app.py:35-37 | a cell survives exactly when it is present and non-empty after stripping, and it survives stripped |
| States.CleanStates | opened_app.py:35-38 | the offered states are strictly ascending, each comes from a surviving cell, and every surviving cell's name is offered |
| States.CleanStatesAreStripped | opened_app.py:35-37 | every offered name is non-empty and has no surrounding white space |
| States.StatesForSeason | opened_app.py:28-41 | a failed load or an empty sheet offers no states; otherwise the cleaned column |
| States.CleanStatesIgnoresOrder | opened_app.py:35-38 | the offered list depends only on which names occur, not on their order or repetition |
| States.StrictlyAscendingUnique | opened_app.py:38 | a sorted, duplicate-free list is determined by its set of names |
| App.RecentSeasons | opened_app.py:161 | min(5, n) seasons (the selector's own five, `OfferedSeasons`), greatest first, drawn from the available ones; every season left out, repeated labels counted one by one, sorts no later than any season offered |
| App.PrefixIsTop | opened_app.py:161 | a prefix of a descending arrangement is drawn from the input and is no smaller than anything it leaves out, repeated labels counted one by one |
| App.DamagePercentage | opened_app.py:396-397 | with a positive total the share times the total is the damaging count times 100, otherwise it is 0; it lies in [0, 100] when 0 ≤ damaging ≤ total |
| App.AnalysisSummary | opened_app.py:395-397 | the summary appears exactly when at least two seasons contributed; each share relates the damaging and total averages of the same window, and is 0 when that window's total average is not positive |
| App.SharesAreBounded | opened_app.py:395-397 | when every season has 0 ≤ damaging ≤ total, both shares are between 0 and 100 |
| App.TwoSeasonExample | opened_app.py:106-110 | totals 60 and 50 give a mean of 55, a squared COV of 250000/3025 (about 9.09 %) and the Low band |

## Left out

- The Streamlit page itself: titles, inputs, metrics, tables, the map and the error messages. They are display only.
- Caching (`st.cache_data`): it does not change any result.
- `print` logging: it does not change any result.
- The spreadsheet loader (`load_freeze_thaw_data_by_season`, `get_available_seasons`) is not part of this model. Its results are parameters: the season list, and a loader that returns `None` where the load raises.
- `find_nearest_location` and its 50 km radius are not part of this model. The target station is a parameter.
- The `str.contains` filter of the search form (opened_app.py:254): it keeps the rows whose State contains the selected state, ignoring case and read as a regular expression. Those rows are the candidates `find_nearest_location` picks the target from, so the filter decides the target. Both are outside this model; the target is a parameter.
- `try`/`except` around the whole calculation: a failure inside one season is modelled as that season's load returning `None`. Other failures are left out.
- Floating point: the model computes with exact reals. It has no rounding, NaN or infinity, and no `.1f`/`.2f` formatting.
- Text.Upper: only ASCII letters are upper-cased. Python's `str.upper` also maps other Unicode letters (and some to several characters).
- Text.UpperChar: only the ASCII letters a-z are folded; every other character, including non-ASCII letters such as "é", is kept. pandas' `.str.upper()` maps "é" to "É".
- Text.Normalize: the key folds ASCII letters only, so two non-ASCII names that pandas folds together (such as "é" and "É") do not match here. Its length bound holds only for this ASCII model: Python upper-cases "ß" to "SS".
- States.CleanStates: cells are strings or missing. `astype(str)` applied to numbers or other non-string cells is not modelled.
- Sorting.SortDesc: it is stable. pandas' default `sort_values` is not, so the program leaves the order of two points with the same season label open. The series contracts (descending, a permutation of the points) hold for any such order. The last-five-years window could differ only when equal labels straddle its boundary.
- Matching.SelectRecord: rows are identified by position. `exact_match.loc[closest_idx]` selects by index label, which differs only when a sheet has duplicate index labels.
- Aggregate.Summarize: each COV is stated as its square (`CovSquared`), not as the square-rooted percentage the program reports. `Stats.CovIsStdOverMean` ties the two together.
- `stats['data'].head(5)`, the recent-seasons table: it is the first five points of the series that `Aggregate.Summarize` returns. It is display only.
