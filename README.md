# Bikeshare statistics, modelled in Dafny

This project models the analysis pipeline of `bikeshare_2.py`, a console
program that explores US bike-share trips for Chicago, New York City and
Washington. The user picks a city, and optionally a month (January to June)
and a weekday. The program filters the city's trips to that window. It then
reports:

- the most common month, weekday and start hour;
- the most common start station, end station and trip;
- the total and mean trip duration;
- user types, genders and birth years.

Finally it pages through the raw table five rows at a time.

The model works on trips that are already decoded. The CSV file has been read,
and month, weekday, hour and both times (whole seconds) are given per row.
`Gender` and `Birth Year` may be missing in a row (NaN) or missing from a
city's file altogether (`Frame.hasGender`, `Frame.hasBirthYear`).

Modules:

- `Wrappers` (wrappers.dfy): `Option` and `Result`.
- `Orders` (orders.dfy): the total orders that break ties in a mode query.
  The order on numbers is the usual one. Strings go by code point, as Python
  compares them. Station pairs go by start station, then end station.
  Trips are ordered by their joined key `start + ' -> ' + end`, as the
  program orders them (`Statistics.TripLe`).
- `Frequency` (frequency.dfy): `(col == v).sum()`, `col.mode()[0]`, sum, min
  and max, and `groupby(col)[col].count().sort_values(ascending=False)`.
- `Trips` (trips.dfy): the trip record, the table, the faults the program
  raises, and the columns taken from the rows.
- `Filters` (filters.dfy): the answers `get_filters` accepts, and `load_data`.
- `Statistics` (statistics.dfy): `time_stats`, `station_stats`,
  `trip_duration_stats` and `user_stats`.
- `Paging` (paging.dfy): the `view_raw_data` loop.

Tie-breaking: pandas' `Series.mode()` returns all tied values sorted
ascending, and the program takes element 0. `Frequency.IsMode` states this
directly: the chosen value occurs at least as often as any other, and among
the values that occur that often it is the smallest. `Frequency.ModeIsUnique`
shows that this pins the value down.

Faults: the program raises an uncaught exception in several places, and each
one becomes a `Failure` result:

- `MONTHS.index` on an unknown month name;
- `mode()[0]` on an empty view;
- `MONTHS[month - 1]` when the most common month is after June;
- `int()` of the NaN minimum when the view holds no birth year.

A missing `Gender` or `Birth Year` column is caught by the program (a
`KeyError`) and becomes `NotRecorded`.

## Model

| member | source | states |
|---|---|---|
| `Orders.StrLeIsTotalOrder` | bikeshare_2.py:156-161 | Python's code-point order on station names is a total order, so the smallest tied mode is well defined |
| `Orders.PairLeIsTotalOrder` | bikeshare_2.py:166-167 | the (start, end) order, start first, is a total order |
| `Frequency.Count` | bikeshare_2.py:127 | `(col == v).sum()` is at most the number of rows, and it is positive exactly when v occurs |
| `Frequency.Present` | bikeshare_2.py:220-232 | dropping the empty cells keeps every value as often as the column holds it, one entry per non-empty cell |
| `Frequency.CountIsMultiplicity` | bikeshare_2.py:127 | that count equals the multiplicity of v in the column's multiset |
| `Frequency.CountConcat` | bikeshare_2.py:127 | counting over two parts of a column adds up |
| `Frequency.MostCommon` | bikeshare_2.py:126-127 | `mode()[0]` and its count: a value of the column that occurs at least as often as any other, the smallest among equally frequent values, with the number of rows holding it |
| `Frequency.ModeIsUnique` | bikeshare_2.py:126 | two values that both satisfy the mode definition are equal, so the mode is determined |
| `Frequency.ModeOfConstant` | bikeshare_2.py:126-127 | a column holding one value throughout has that value as its mode, counted on every row |
| `Frequency.Min` | bikeshare_2.py:228 | `min()` of a non-empty column is a value of it and is at most every value |
| `Frequency.Max` | bikeshare_2.py:230 | `max()` of a non-empty column is a value of it and is at least every value |
| `Frequency.Sum` | bikeshare_2.py:190 | `sum()`: a column of non-negative values has a non-negative sum (additivity and bounds are the lemmas below) |
| `Frequency.SumAtLeast` | bikeshare_2.py:190 | n times a lower bound of every value is at most the sum |
| `Frequency.SumAtMost` | bikeshare_2.py:190 | the sum is at most n times an upper bound of every value |
| `Frequency.SumConcat` | bikeshare_2.py:190 | the sum over two parts of a column is the sum of the two sums |
| `Frequency.Distinct` | bikeshare_2.py:213 | the group keys: every value of the column exactly once |
| `Frequency.TallyCoversAllRows` | bikeshare_2.py:213 | the group counts over all distinct values add up to the number of rows |
| `Frequency.Insert` | bikeshare_2.py:214 | inserting a group gives the groups plus that one, as a multiset, with the total grown by its size |
| `Frequency.InsertKeepsOrder` | bikeshare_2.py:214 | inserting a group keeps the groups in non-increasing order of size |
| `Frequency.SortBySizeDescending` | bikeshare_2.py:214 | `sort_values(ascending=False)` returns a permutation of the groups (the same multiset, so the same total) in non-increasing order of size |
| `Frequency.SortKeepsKeysDistinct` | bikeshare_2.py:214 | sorting does not duplicate a group key |
| `Frequency.Breakdown` | bikeshare_2.py:213-214 | grouped counts: one group per distinct value, each sized by its number of rows, largest first, the sizes adding up to the rows counted |
| `Trips.KnownGenders` | bikeshare_2.py:220 | the genders grouped are the non-empty `Gender` cells (groupby drops NaN): each gender as often as the rows hold it, one entry per row with a gender |
| `Trips.KnownBirthYears` | bikeshare_2.py:228-232 | min, max and mode see the non-empty `Birth Year` cells: each year as often as the rows hold it, one entry per row with a year |
| `Filters.AcceptsCity` | bikeshare_2.py:31 | the city prompt accepts a city exactly when `CITY_DATA` (lines 5-7) has a file for it |
| `Filters.AcceptsDecision` | bikeshare_2.py:40-48 | the decision prompt accepts exactly the answers that ask for a month, a day, or "none" |
| `Filters.AcceptsMonth` | bikeshare_2.py:44 | the month prompt accepts exactly the names in MONTHS, the ones `MONTHS.index` finds |
| `Filters.AcceptsDay` | bikeshare_2.py:52 | the day prompt accepts exactly 1..7, the numbers whose `day - 1` is a weekday index 0..6 |
| `Filters.ChooseFilters` | bikeshare_2.py:38-63 | the dialogue ends once the decision is one of month/day/both/none, the month, if asked for, is one of the six names (line 44), and the day, if asked for, is in 1..7 (line 52); a filter not asked for is "all" |
| `Filters.MonthNumberOf` | bikeshare_2.py:97 | `MONTHS.index(name) + 1` is defined exactly for the six names and gives the position (1..6) of the name's first occurrence |
| `Filters.Select` | bikeshare_2.py:99 | `df[mask]` keeps no more rows than the table, and each one kept passes the mask |
| `Filters.SelectCount` | bikeshare_2.py:99 | a mask keeps every passing row as often as the table holds it, and drops every other row |
| `Filters.SelectIsSubsequence` | bikeshare_2.py:99 | a mask keeps the rows in their order |
| `Filters.SelectAllPassing` | bikeshare_2.py:99 | a mask that every row passes changes nothing |
| `Filters.SelectCommutes` | bikeshare_2.py:99-105 | two masks applied one after the other give the same rows in either order |
| `Filters.FilteredRows` | bikeshare_2.py:95-105 | month mask then day mask: a subsequence of the table that holds exactly its wanted rows, each as often as the table does |
| `Filters.LoadData` | bikeshare_2.py:72-106 | `load_data` fails exactly on a month name outside MONTHS; otherwise it returns the table itself and a view that keeps exactly the wanted rows (month `MONTHS.index + 1`, weekday `day - 1`), in order, with the table's column set |
| `Filters.NoFilterKeepsEveryRow` | bikeshare_2.py:84-106 | with "all" and "all" the view is the whole table in its order, and the raw table comes back unchanged |
| `Filters.MonthFilterKeepsThatMonth` | bikeshare_2.py:95-99 | a month name keeps exactly the rows of its month number, which is in 1..6 |
| `Filters.DayFilterKeepsThatWeekday` | bikeshare_2.py:103-105 | a day in 1..7 keeps exactly the rows of weekday `day - 1`: 1 is Monday (0), 7 is Sunday (6) |
| `Filters.FilterOrderDoesNotMatter` | bikeshare_2.py:94-105 | month then weekday, or weekday then month, gives the view of both filters at once |
| `Filters.FilterIsIdempotent` | bikeshare_2.py:94-105 | filtering the view again with the same answers leaves it as it is |
| `Filters.ChosenFiltersAlwaysLoad` | bikeshare_2.py:44-59 | every pair of filters the dialogue returns loads without the `MONTHS.index` error, and its day maps to a weekday index 0..6 |
| `Statistics.TimeStats` | bikeshare_2.py:122-138 | most common month, weekday and hour, each a mode of its column with its row count; an empty view fails, and so does a most common month past June, which line 128 cannot name |
| `Statistics.MonthFilterMakesItsMonthPopular` | bikeshare_2.py:95-127 | after a month filter, the filtered month is the most popular one and is counted on every row of a non-empty view |
| `Statistics.TripKey` | bikeshare_2.py:166 | the joined key is as long as both names plus the separator, starts with the start station and ends with the end station |
| `Statistics.TripKeys` | bikeshare_2.py:166 | the joined key of every row, in row order |
| `Statistics.TripLeIsTotalOrder` | bikeshare_2.py:166-167 | ordering trips by joined key, then by (start, end) among trips with the same key, is a total order |
| `Statistics.StationStats` | bikeshare_2.py:155-168 | most common start station, end station and (start, end) trip, each a mode with its row count, ties going to the smallest name and for trips to the smallest joined key; an empty view fails |
| `Statistics.RouteCountMatchesBothStations` | bikeshare_2.py:166-168 | the trip count is the number of rows whose start AND end station both match, not the two counted separately |
| `Statistics.PopularTripAsWritten` | bikeshare_2.py:166-168 | as written: the mode of the joined strings `start + ' -> ' + end`, with its count |
| `Statistics.KeyCountIsRouteCount` | bikeshare_2.py:166-168 | a trip whose joined key no other trip shares has the same count by key as by pair |
| `Statistics.CorrectedTripMatchesJoinedKey` | bikeshare_2.py:166-168 | where no two different trips of the view share a key, the corrected trip has the key the program reports, with the same count |
| `Statistics.TiesFollowTheJoinedKey` | bikeshare_2.py:166-167 | two trips seen once each, "A" to "Z" and "A & B" to "C": both the program and the model report A & B to C, because '&' sorts before '-' |
| `Statistics.JoinedKeyMergesDistinctTrips` | bikeshare_2.py:166 | two different trips share one joined key, so the joined count is 2 while every pair occurs once and the corrected trip count is 1 |
| `Statistics.Durations` | bikeshare_2.py:188 | the travel time of every row, `End Time - Start Time`, in row order |
| `Statistics.DurationStats` | bikeshare_2.py:186-193 | total travel time is the sum of `end - start` over the view; the mean exists exactly for a non-empty view, and the mean times the row count is the total |
| `Statistics.Mean` | bikeshare_2.py:193 | the mean times the number of trips is their total |
| `Statistics.TotalBetweenShortestAndLongest` | bikeshare_2.py:188-193 | the total lies between n times the shortest trip and n times the longest, so the mean lies between the two |
| `Statistics.TotalDurationAdds` | bikeshare_2.py:188-190 | the total of a view split in two is the sum of the two totals |
| `Statistics.TenAndTwentyMinutes` | bikeshare_2.py:188-193 | trips of 10 and 20 minutes give a total of 30 minutes and a mean of exactly 15 |
| `Statistics.UserTypeCounts` | bikeshare_2.py:213-214 | one count per user type present, each the number of rows with that type, largest first, summing to the rows of the view |
| `Statistics.GenderCounts` | bikeshare_2.py:219-224 | NotRecorded exactly when the file has no Gender column; otherwise one count per recorded gender, largest first, summing to the rows with a gender |
| `Statistics.BirthYearStats` | bikeshare_2.py:227-235 | NotRecorded without the column; a fault when the view holds no birth year; otherwise the earliest and most recent years are years of the view that bound all of them, and the most common (the smallest of the tied) lies between them |
| `Statistics.UserStats` | bikeshare_2.py:200-238 | the user report is the three parts above, and it fails exactly when the birth years do |
| `Paging.Pages` | bikeshare_2.py:257-261 | the raw table cut into pages, each holding 1 to 5 rows |
| `Paging.PagesCoverTable` | bikeshare_2.py:250-261 | the pages, put together, are the raw table: every row once, in order |
| `Paging.PageCount` | bikeshare_2.py:250-261 | there are ceil(n / 5) pages |
| `Paging.PageAt` | bikeshare_2.py:257-261 | page i starts at row 5i and holds rows 5i up to min(5i + 5, n) |
| `Paging.LeadingYes` | bikeshare_2.py:254-256 | the number of leading "yes" answers: all of those are "yes", and the next answer is not |
| `Paging.ViewRawData` | bikeshare_2.py:250-261 | the loop shows the first pages of the raw table, one per leading "yes", and stops once the rows run out |

## Left out

- Console I/O is not modelled. This covers `get_name`, the prompts and
  messages in `get_filters`, `data_pause`, the restart loop of `main` and all
  printed text and formatting. The prompt loops of `get_filters` are modelled
  as one pass (`Filters.ChooseFilters`), where None means the program would
  ask again.
- The `ValueError` the day prompt catches when `int()` cannot parse the answer
  is not modelled: the day answer is taken as an integer.
- `.lower()` on the answers is not modelled, because there is no case folding
  on strings. Answers are taken as already lower-cased.
- `pd.read_csv(CITY_DATA[city])` is file I/O. The loaded table is an input to
  `Filters.LoadData`, and `Filters.AcceptsCity` only relates the accepted
  cities to the keys of `CITY_DATA`.
- `pd.to_datetime` is not modelled. Each row carries its available month,
  weekday and hour and both times as whole seconds.
- In-place column writes are not modelled as state changes. These are the
  `Hour` column added at line 123 and the `End Time` conversion at line 186.
  They only decode values the rows already carry. Because tables are values,
  the copy at line 85 that keeps the raw table apart from the view is
  implicit too.
- `time.time()` and the elapsed-seconds messages carry no behaviour.
- Statistics.DurationStats: the mean is the exact quotient of the integer
  total by the row count. pandas computes a `Timedelta` rounded to
  nanoseconds and prints it, and that rounding is not modelled. The mean's
  lower and upper bounds are stated on the integer total
  (`Statistics.TotalBetweenShortestAndLongest`), not on the real mean.
- Statistics.UserTypeCounts: the order between user types with equal counts
  is not stated, because `sort_values(ascending=False)` leaves it unspecified.
  The model only promises a non-increasing order. The same holds for
  `Statistics.GenderCounts`.
- The row index printed with each raw row, and the text of the row, are
  output formatting. `Paging.ViewRawData` returns the rows of each page.
- Filters.LoadData: the month answer "all" is the value `AllMonths`, while
  `MonthNamed` carries a month name. `MonthNamed("all")` therefore fails as an
  unknown name, whereas the program's `month != 'all'` (line 95) would apply no
  filter. `get_filters` never produces it: `Filters.ChooseFilters` returns
  `MonthNamed` only with a name in MONTHS.
- User Type is taken as always present, so a NaN user type, which groupby
  would drop, is not modelled.

## Findings

| source | as written | input that shows it | evidently intended | confidence | as-written member | corrected member |
|---|---|---|---|---|---|---|
| bikeshare_2.py:166-168 | the most popular trip is the mode of the string `start + ' -> ' + end`, so two different station pairs with the same joined string are counted as one trip | rows ("A -> B" to "C") and ("A" to "B -> C"): both join to "A -> B -> C", which is reported with count 2 although each trip occurs once | count each (start, end) combination separately, as the comment at line 165 says | low; not executed; real station names seldom contain " -> " | `Statistics.PopularTripAsWritten`, `Statistics.JoinedKeyMergesDistinctTrips` | `Statistics.StationStats`, `Statistics.RouteCountMatchesBothStations` |

The corrected trip statistic breaks ties as the program does, by the joined
key, and uses the (start, end) order only to separate different trips whose
keys coincide. `Statistics.CorrectedTripMatchesJoinedKey` shows that on a view
without such a collision it reports the same trip with the same count.
