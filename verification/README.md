# Game-log cleaning, modelled in Dafny

This project models the per-player cleaning stage of a basketball game-log
pipeline (`cleaning.py`, function `clean_csv`). The stage takes the scraped
rows of one player's game log and does the following:

- converts `"M:S"` minutes to decimal minutes;
- keeps only rows with a numeric rank;
- numbers the seasons and extracts the age;
- sorts the rows by date;
- gives every row a rest type: `Normal`, `Load Management` or `Injured/Illness`;
- gives every row a `Days Rested` value;
- labels each season `"Y1-Y2"`;
- summarises each season with `custom_mean` averages and a `Games Played` maximum.

The model is split into modules that follow the script's passes:

| module | file | what it holds |
|---|---|---|
| `Basics` | basics.dfy | `Option`, `Result` (a step that can raise), table cells, the six absence tokens |
| `Text` | text.dfy | digits, `str(n)`, `int(...)`, `float(...)` on plain decimal text, `sub in s`, a split that expects two parts |
| `Rounding` | rounding.dfy | `round(x, d)` on exact rationals: round half to even |
| `GameLog` | gamelog.dfy | raw and normalised rows |
| `Normalise` | normalise.dfy | `convert_to_decimal`, age extraction, the numeric-rank filter |
| `Season` | season.dfy | the season index (a running count of `Rk == "1"`) and the season label |
| `RestClassification` | rest.dfy | the rest-classification loop, step by step, and its closed form |
| `DaysRested` | days_rested.dfy | the `Days Rested` pass |
| `Averages` | averages.dfy | `custom_mean` |
| `SeasonSummary` | season_summary.dfy | per-season averages and `Games Played` |
| `Cleaning` | cleaning.dfy | the date sort and the whole pass from raw rows to the cleaned log |

## How the rest classification comes out

The classification loop (cleaning.py:63-107) is modelled as it is written:

- a preset;
- an outer loop over rows 1..n-1, which resets the row, looks ahead, escalates a long run and softens the run's last three rows;
- an adjacency pass over rows 1..n-2, nested inside every outer iteration.

The `i += 1` inside the look-ahead does not skip outer iterations. Every later row of a run is therefore revisited and reset.

`RestClassification.Classify` proves that the whole loop equals a closed form, `FinalRest`:

- A row is `Normal` exactly when its minutes are not an absence token.
- An absence in row 0 stays `Load Management`, because no loop writes row 0.
- An absence in the last row ends as `Load Management`. The final outer iteration resets it, and the adjacency pass stops one row short of it.
- An absence in rows 1..n-2 ends `Injured/Illness` exactly when its run of consecutive absences is longer than three. The run counts only rows at index 1 or later.
- The three-row softening is always undone, by the adjacency pass of the same iteration or of a later one.

The two example lemmas in `rest.dfy` show how this differs from the code's own comment at cleaning.py:79, which says that a run of more than three consecutive absences is classified as injured/illness throughout:

- Four absences starting at row 0, then a played game: all four stay `Load Management`. The loop sees a run of only three rows (rows 1-3).
- Four absences ending the log: the last one is `Load Management`.

This follows the code. Read by that comment, both runs would be `Injured/Illness`; the code does not do that.

In the same way, the `Days Rested` backward walk (cleaning.py:120-123) looks for the nearest earlier `Normal` row at any index. It is not limited to the current season; the comment on line 127 suggests a season limit, but the code has none. The model follows the code. A season start still gets 0, from the separate check at line 115.

## Model

| member | source | states |
|---|---|---|
| `Text.ParseNat` | cleaning.py:13 | `int(s)` on digit text succeeds exactly when the text is non-empty and all digits |
| `Text.ParseNatToString` | cleaning.py:138 | reading back the decimal spelling of a natural gives the natural again |
| `Text.SplitOnce` | cleaning.py:34 | the two-part split succeeds exactly when the separator occurs once; the parts rejoin to the input and hold no separator |
| `Text.SplitOnceJoin` | cleaning.py:34 | splitting `a + ":" + b`, where neither part holds the separator, gives back `(a, b)` |
| `Text.ParseDecimal` | cleaning.py:35 | `float` of unsigned decimal text is non-negative and accepts only digits and a point |
| `Text.ParseDecimalAccepts` | cleaning.py:35 | `float` succeeds exactly on non-empty text of digits with at most one point that is not the bare point |
| `Text.ParseDecimalValue` | cleaning.py:35 | `float("W.F")` is W plus F read as a fraction with as many decimals as F has digits |
| `Text.ParseDecimalExample` | cleaning.py:35 | `float("5.5")` is 5.5 |
| `Text.ParseDecimalOfNat` | cleaning.py:35 | `float` of a natural's decimal spelling is that natural |
| `Text.ParseDecimalOfDigits` | cleaning.py:35 | `float` of digit text without a point, leading zeros included (`"05"`, `"00"`), is the number the digits spell |
| `Rounding.RoundHalfEven` | cleaning.py:18 | the rounded integer is within 1/2 of its input, a tie goes to the even neighbour, and the result is the floor or the floor plus one |
| `Rounding.RoundHalfEvenIsNearest` | cleaning.py:18 | no integer is nearer to the input than the rounded one |
| `Rounding.RoundTo` | cleaning.py:35 | `round(x, d)` has at most `d` decimals and is within half a unit of the `d`-th decimal of `x` |
| `Rounding.RoundToKeepsMultiple` | cleaning.py:149-150 | rounding a value that already has at most `d` decimals leaves it unchanged |
| `Normalise.ConvertToDecimal` | cleaning.py:32-36 | a cell without `:` is returned unchanged; a cell with one converts exactly when it splits into two numbers, and then becomes a one-decimal number within 0.05 of minutes + seconds/60 |
| `Normalise.MinutesSplit` | cleaning.py:34-35 | the minutes and seconds parts are the numbers of the two texts around the single colon |
| `Normalise.MinutesSplitJoin` | cleaning.py:33-35 | two numbers around a single colon always split into those numbers, so such a cell always converts |
| `Normalise.MinutesSplitDigits` | cleaning.py:34-35 | any `"M:S"` of two digit strings, zero-padded ones such as `"35:05"` and `"6:00"` included, splits into the numbers M and S |
| `Normalise.ConvertMinutesSeconds` | cleaning.py:32-36 | any `"M:S"` of two digit strings, zero-padded ones included, converts to M + S/60 rounded to one decimal, within 0.05 of the exact value |
| `Normalise.AbsenceHasNoColon` | cleaning.py:57 | none of the six absence tokens holds a colon |
| `Normalise.ConvertKeepsAbsence` | cleaning.py:33-36 | absence tokens pass through the minutes conversion unchanged |
| `Normalise.ConvertColumn` | cleaning.py:38 | converting the column succeeds exactly when every cell converts, and then holds each cell's conversion in place |
| `Normalise.FirstDigitPair` | cleaning.py:29 | finds the leftmost position of two consecutive digits, or reports that there is none |
| `Normalise.ExtractAge` | cleaning.py:28-30 | the age is present exactly when the text holds two consecutive digits; it is then the number they spell, taken from the leftmost such pair, and is below 100; a missing age stays missing |
| `Normalise.ExtractAgeOfYears` | cleaning.py:28-30 | an age text that starts with a two-digit number of years, such as `"25-123"`, gives that number back |
| `Normalise.KeepNumericRanks` | cleaning.py:39 | every kept row comes from the input and has a numeric rank |
| `Normalise.Select` | cleaning.py:39 | every selected row is a row of the input whose mask entry is true |
| `Normalise.SelectAtPositions` | cleaning.py:39 | the p-th selected row is the input row at the p-th selected position |
| `Normalise.SelectedPositionsIncrease` | cleaning.py:39 | selected positions strictly increase, so selection keeps the input order |
| `Normalise.SelectedPositionsExactly` | cleaning.py:39 | a position is selected exactly when its mask entry is true |
| `Normalise.KeepNumericRanksExactly` | cleaning.py:39 | the filter keeps exactly the numeric-rank rows, in their original order |
| `Season.CountSeasonStarts` | cleaning.py:40 | the number of season starts never exceeds the number of rows |
| `Season.SeasonIndices` | cleaning.py:40 | each row's index is the number of rows up to and including it whose rank is `"1"`; it grows by one at a `"1"` row and otherwise stays the same |
| `Season.SeasonIndexMonotone` | cleaning.py:40 | the season index never decreases along the rows |
| `Season.SeasonIndicesContiguous` | cleaning.py:40 | every index between the first row's and a later row's belongs to some row in between |
| `Season.SeasonLabelYears` | cleaning.py:138 | the label of index x reads back as the years (y+x-1, y+x) |
| `Season.SeasonLabelInjective` | cleaning.py:138-140 | distinct indices get distinct labels, so grouping by label is grouping by index |
| `Season.SeasonLabelsChain` | cleaning.py:138 | the next season's first year is this season's second year |
| `RestClassification.RunStart` | cleaning.py:63-74 | the first row (index 1 or later) of the absence run through row k |
| `RestClassification.RunEnd` | cleaning.py:72-77 | one past the last row of the absence run through row k |
| `RestClassification.SameRun` | cleaning.py:72-77 | every row of a run has the same run bounds |
| `RestClassification.Preset` | cleaning.py:54-58 | absence rows start as `Load Management` and every other row as `Normal` |
| `RestClassification.LookAhead` | cleaning.py:68-77 | the look-ahead counts the whole run of absences from row i up to its end |
| `RestClassification.MarkInjured` | cleaning.py:80-82 | the rows of the range become `Injured/Illness` and no other row changes |
| `RestClassification.Soften` | cleaning.py:97-99 | `Injured/Illness` rows of the range become `Load Management` and no other row changes |
| `RestClassification.AbsorbAdjacent` | cleaning.py:102-107 | the adjacency pass leaves the first and last rows alone and only turns `Load Management` into `Injured/Illness`; a row turns when it is `Load Management` and its left neighbour (already updated) or its right neighbour is injured |
| `RestClassification.EscalateRun` | cleaning.py:64-99 | one outer iteration before its adjacency pass: the reset, escalation and softening give the labels `EscalatedLabel` describes |
| `RestClassification.EscalatedIsBeforeAbsorb` | cleaning.py:63-99 | the labels before the adjacency pass of iteration i are those of the run-level description `BeforeAbsorb` |
| `RestClassification.AbsorbGivesNextLabels` | cleaning.py:63-107 | the adjacency pass of iteration i turns those labels into the labels at the start of iteration i+1 |
| `RestClassification.Classify` | cleaning.py:54-107 | the classification equals the closed form `FinalRest`: `Normal` exactly for non-absences, `Load Management` at an absent first or last row, and for rows 1..n-2 `Injured/Illness` exactly when the run is longer than three |
| `RestClassification.AbsencesFromFirstRowExample` | cleaning.py:63-107 | four absences from row 0 followed by a game all stay `Load Management` |
| `RestClassification.AbsencesToLastRowExample` | cleaning.py:63-107 | four absences ending the log: the first three are injured and the last is `Load Management` |
| `DaysRested.LastNormalBefore` | cleaning.py:120-123 | the nearest earlier `Normal` row, or none when no earlier row is `Normal` |
| `DaysRested.NearestNormalBefore` | cleaning.py:120-123 | the backward walk stops at the nearest earlier `Normal` row at any index, or at -1 when there is none |
| `DaysRested.ComputeDaysRested` | cleaning.py:110-132 | `Days Rested` is 0 at row 0, at season starts, at non-`Normal` rows, and when no earlier row is `Normal`; otherwise it is the date gap to the nearest earlier `Normal` row; with ascending dates it is never negative |
| `Averages.DropAbsences` | cleaning.py:6 | the filtered column holds exactly the non-absence cells of the input |
| `Averages.DropAbsencesAppend` | cleaning.py:6 | filtering a concatenation filters each part |
| `Averages.PercentageNameWidth` | cleaning.py:17 | any column name holding `FT%`, `3P%` or `FG%` at any position gets three decimals |
| `Averages.AveragedColumnDecimals` | cleaning.py:17 | of the ten averaged columns, the three percentages get three decimals and the rest one |
| `Averages.SumBounds` | cleaning.py:18 | the sum of n values in [lo, hi] lies in [n·lo, n·hi] |
| `Averages.MeanBounds` | cleaning.py:18 | a mean lies between the smallest and the largest value |
| `Averages.MinuteSecond` | cleaning.py:13 | one `"m:s"` value as minutes + seconds/60, non-negative |
| `Averages.MinuteSecondAccepts` | cleaning.py:13 | a value unpacks exactly when it is a text of two digit strings around a single colon |
| `Averages.MinuteSecondOfDigits` | cleaning.py:13 | a text of two digit strings m and s around a colon unpacks to m + s/60 |
| `Averages.MinutesOf` | cleaning.py:13 | the pairs succeed exactly when every value is a `"m:s"` text, and then hold each value's minutes in place |
| `Averages.NumbersOf` | cleaning.py:16 | the conversion succeeds exactly when every text cell is a number; the result is empty exactly when every cell is missing, and each number comes from some cell |
| `Averages.NumbersOfOne` | cleaning.py:16 | one cell gives no number when missing, raises when it is not a number, and otherwise gives its number |
| `Averages.NumbersOfCons` | cleaning.py:16 | a cell in front of others puts its number, if any, in front of theirs |
| `Averages.NumbersOfAppend` | cleaning.py:16 | converting a concatenation gives the two parts' numbers in order, and raises when either part raises; with `NumbersOfOne` this fixes the numbers and how often each occurs |
| `Averages.MeanOfRemaining` | cleaning.py:7-18 | the result has no value when nothing remains. Colon branch: a value exactly when all values are `"m:s"`, rounded from the total over the count. Numeric branch: raises exactly when a text is not a number, has no value exactly when no numbers remain, otherwise rounded from their mean |
| `Averages.CustomMean` | cleaning.py:5-18 | a column of only absences has no mean, and every mean has the column's width of decimals |
| `Averages.CustomMeanIgnoresAbsence` | cleaning.py:6 | inserting an absence token anywhere does not change the result |
| `Averages.CustomMeanWithinRange` | cleaning.py:16-18 | a numeric mean lies within half a unit of the column's range of numbers |
| `Averages.CustomMeanMinutesExample` | cleaning.py:12-14 | `5:30`, an absence and `6:00` average to 5.8 (5.75 is a tie and rounds to even) |
| `SeasonSummary.SeasonRows` | cleaning.py:140 | a season's group holds exactly the rows of that season |
| `SeasonSummary.SeasonRowsOne` | cleaning.py:140 | a single row is in the group of its own season and of no other |
| `SeasonSummary.SeasonRowsAppend` | cleaning.py:140 | grouping a concatenation groups each part, so the group keeps the rows' order and every copy |
| `SeasonSummary.SeasonAverage` | cleaning.py:140 | a season's average has its column's width of decimals, and raises when a row lacks the column |
| `SeasonSummary.PercentageRoundingIsStable` | cleaning.py:149-150 | rounding the percentage averages to three decimals again changes nothing |
| `SeasonSummary.MaxGame` | cleaning.py:141 | the maximum is missing exactly when every game number is, is one of them, and is at least every present one |
| `SeasonSummary.GamesPlayedIsSeasonMax` | cleaning.py:141 | `Games Played` is missing exactly when no row of the season has a game number; otherwise it is the number of some row of the season and no row of the season has a larger one |
| `SeasonSummary.Summarize` | cleaning.py:139-141 | a summary has one average per averaged column, in order, each the column's season average with that column's width; `Games Played` is the season's games played, missing exactly when the season has no game number and otherwise no smaller than any row's |
| `Cleaning.InsertByDate` | cleaning.py:47 | inserting adds exactly that row to the log's multiset |
| `Cleaning.InsertKeepsAscending` | cleaning.py:47 | inserting into a date-sorted log keeps it sorted |
| `Cleaning.SortByDate` | cleaning.py:47 | the sort is a rearrangement of the rows |
| `Cleaning.SortByDateAscending` | cleaning.py:47 | the sorted log has ascending dates |
| `Cleaning.NormalisedRows` | cleaning.py:26-40 | the rows after minutes conversion, rank filter, season count and age extraction equal the closed form `Normalised`, and every rank is numeric |
| `Cleaning.MinutesKeepPositions` | cleaning.py:38-39 | converting the minutes does not change which rows the rank filter keeps |
| `Cleaning.SeasonNumberedStep` | cleaning.py:40 | a kept row's season index is the previous row's (0 for the first) plus one when its rank is `"1"` |
| `Cleaning.NormalisedRowAt` | cleaning.py:26-40 | the p-th normalised row is the raw row at the p-th numeric-rank position, with its converted minutes and extracted age |
| `Cleaning.NormalisedContents` | cleaning.py:26-40 | the normalised rows are exactly the numeric-rank raw rows, in order, each with its converted minutes and extracted age, and with a season index that starts at 0 or 1 and grows by one at each rank `"1"` |
| `Cleaning.CleanLog` | cleaning.py:38-132 | fails exactly when the minutes conversion raises. On success the rows are a date-ascending rearrangement of the normalised rows, so no numeric-rank row is lost; each rest type is the closed form `FinalRest` of the sorted minutes, so a row is `Normal` exactly when it is not an absence; each `Days Rested` is the pass's value `DaysRestedAt`, never negative and 0 on non-`Normal` rows; and each season label is the one for the row's index |

## Left out

- The scraper (`scrapping.py`) is not part of this model: browser automation, rate limiting, retries, file writes and JSON loading.
- `clean_all_csv_files` (cleaning.py:161-178) is left out: directory listing and the skip-if-cleaned check are file I/O.
- CSV reading and writing, column drops, column renames, the `int` coercion of `Game` and `Games Played`, the `Type` column and the final concatenation (cleaning.py:21-23, 142-159) are table plumbing. They are left out.
- The dead computations are left out. `Days Between Games` (cleaning.py:51-52) is dropped at line 135. The early `Days Rested` values (cleaning.py:55, 83-88) are overwritten at line 110.
- Dates are integer day numbers. `pd.to_datetime` parsing is not modelled. The earliest date's calendar year is the `startYear` parameter of `Cleaning.CleanLog`.
- Cleaning.SortByDate is one particular date sort, an insertion sort that keeps equal dates in input order. pandas' default sort is not stable, so it may order rows with equal dates differently. Every property proved about the cleaned log holds for any date-ascending order.
- Rounding.RoundTo rounds exact rationals half to even. Python's `round` on binary floats, and the float arithmetic around it, are not modelled.
- Text.ParseDecimal accepts only unsigned decimal text. Python `float` also accepts signs, surrounding whitespace, exponents, `inf` and `nan`; these are not modelled.
- Text.ParseNat accepts only ASCII digits. Python `int` also accepts a sign, whitespace and underscores.
- Normalise.IsNumericRank is limited in the same way as `ParseDecimal`: unsigned decimal ranks only.
- Normalise.ExtractAge matches only ASCII digits. The `\d` of the age pattern also matches other Unicode digits.
- Averages.MeanOfRemaining does not compute the percentage-fragment branch (cleaning.py:10-11). It only reports that the branch is taken, as `Fragments`.
- Ranks are modelled as text, as in a log whose table repeats its header rows. If every rank read as an integer, the comparison with `'1'` at line 40 would be false on every row. That case is not modelled.
- SeasonSummary.Summarize does not model the order of the summary rows or the positional alignment of `Games Played` with the averages (cleaning.py:140-141).
- SeasonSummary.SeasonAverage reads `MP` from the row's minutes and every other column from the row's statistics. In pandas every `Raises` average is an exception inside the aggregation at line 140, and it aborts the whole cleaning of the file. Three things cause it: a column missing from the table (`KeyError`); a text that is not a number in the numeric branch (`astype(float)`, line 16); and a value that does not unpack as `"m:s"` in the colon branch (line 13). The model instead records `Raises` as that season's average and still builds the summary; it does not model the abort. A row that lacks a key only some rows have, which a DataFrame cannot hold, is treated the same way.
