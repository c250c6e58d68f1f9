# Target selector: a verified model of the ranker

The target selector suggests which variable stars or clusters to observe on a
given night. Its ranker, `order_by_best_target`, does the following:

- It takes a table of candidates with right ascension (RA) and declination
  (DEC), an observation date `YYYY-MM-DD`, the observatory latitude, a list
  of filters, a list of requested output columns, a desired distance from the
  Sun in hours, a row count `n` and an optional neighbor getter.
- It computes the Sun's right ascension from the number of days since
  March 20 of the date's year.
- It adds four derived columns to every row:
  - `delta_sun_RA`, the hours from the Sun;
  - `abs_delta_sun_RA`, their absolute value;
  - `abs_delta_sun_RA_floor`, the integer bin of the distance to the desired
    offset;
  - `abs_delta_dec_lat`, the declination's distance to the latitude.
- It sorts the caller's table in place by (bin, dec-lat distance) and appends
  the three rank columns to the caller's list of requested columns.
- It keeps the rows that satisfy every filter.
- It then returns either the first `n` rows, or, when a neighbor getter is
  given, the first `n` rows whose neighbor count is non-zero, with those
  counts. The rank columns are renamed `Delta_to_Sun`, `Bin` and
  `Lat_to_Dec`.

The neighbor counter `get_neighbors` counts the catalog stars that lie
strictly inside the square field around a position and are strictly brighter
than a magnitude cut. It returns that count minus one (the target itself) when
at least two stars are counted, and zero otherwise.

The model has one module per part:

| module | file | models |
|---|---|---|
| `Wrappers` | `wrappers.dfy` | `Option` and `Result` |
| `CivilDate` | `civil_date.dfy` | the `%Y-%m-%d` parse of `strptime`; proleptic Gregorian day numbers; the day offset from March 20 |
| `Neighbors` | `neighbors.dfy` | `get_neighbors` and the `partial` the program builds from it |
| `Table` | `table.dfy` | candidate rows, the Sun's RA, the derived columns, cell lookup by column name |
| `Sorting` | `sorting.dfy` | the stable sort by (bin, dec-lat distance) |
| `Filters` | `filters.dfy` | filters as typed `column op literal` predicates, and their conjunction |
| `Selection` | `selection.dfy` | `get_neighbors_helper`; head selection; the early-stopping neighbor scan (a method with a loop); renaming |
| `TargetSelector` | `target_selector.dfy` | `order_by_best_target` |

In `TargetSelector`, the caller's table and its requested-column list are
classes. The `OrderByBestTarget` method changes both, as the program does, and
its result is proved equal to the specification function `RankTargets`.

Failures follow the program's order:

1. A date that does not parse fails before anything changes.
2. A bad filter fails next. A filter is bad when it names a column the table
   lacks, or when it orders a text column against a number (the `TypeError`
   of the comparison). The query is evaluated from left to right, so the
   leftmost bad filter decides which error is reported.
3. A requested column the table lacks fails last (the `KeyError` of the column
   selection).

Failures 2 and 3 happen after the table has been sorted and the requested
columns have been extended.

## Model

| member | source | states |
|---|---|---|
| CivilDate.DaysInMonth | target_selector.py:123 | a month has 28 to 31 days, and 29 exactly for February of a leap year |
| CivilDate.DaysBeforeMonth | target_selector.py:129 | the days before month `m` are the days before month `m-1` plus the length of month `m-1` |
| CivilDate.Ordinal | target_selector.py:129 | the day number of a valid date is at least 1 |
| CivilDate.NextDay | target_selector.py:129 | the day after a valid date (other than 9999-12-31) is a valid date |
| CivilDate.DaysBeforeNextYear | target_selector.py:129 | the closed-form day count of year `y+1` is that of year `y` plus the length of year `y` |
| CivilDate.OrdinalNextDay | target_selector.py:129 | the day number of the next day is one more than the day number of the date |
| CivilDate.DayOffset | target_selector.py:126-129 | the offset from March 20 of the same year lies in -79..286; it is 0 exactly on March 20 and negative exactly before it |
| CivilDate.DayOffsetNextDay | target_selector.py:126-129 | within a year, the offset grows by exactly one per calendar day |
| CivilDate.DayOffsetNewYear | target_selector.py:126-129 | January 1 has offset -79 in a leap year and -78 otherwise |
| CivilDate.ParseDate | target_selector.py:123 | an accepted string denotes a valid date (years 1 to 9999) and starts with a four-digit year and a dash, with that year |
| CivilDate.ParseFormattedDate | target_selector.py:123 | writing a date as `YYYY-MM-DD` and parsing it gives the date back when it is a valid calendar date, and is rejected otherwise (for example February 30) |
| CivilDate.EquinoxOffsetExample | target_selector.py:123-129 | "2022-03-20" parses to March 20, 2022, whose offset is 0 |
| Neighbors.FieldRadius | target_selector.py:54-55 | the half-width in degrees is the diameter in arc-minutes divided by 120, and is positive for a positive diameter |
| Neighbors.CountSelected | target_selector.py:59-65 | the number of selected catalog rows is at most the catalog size |
| Neighbors.CountIsCardinality | target_selector.py:59-65 | the count equals the number of catalog positions the selection mask keeps |
| Neighbors.CountAppend | target_selector.py:59-65 | counting a catalog made of two parts adds the counts of the parts |
| Neighbors.GetNeighbors | target_selector.py:25-70 | a non-zero result is smaller than the catalog size |
| Neighbors.NeighborGetter | target_selector.py:25-70 | the getter the program binds from `get_neighbors` (its `partial`) returns, for every position, 0 or a count smaller than the catalog size |
| Neighbors.NeighborsAreOtherSelectedRows | target_selector.py:59-70 | the result is the number of selected rows minus one when at least two are selected, and 0 otherwise; it is non-zero exactly when two different rows are selected |
| Neighbors.BoundaryStarNotCounted | target_selector.py:60-64 | a star on an edge of the field, or exactly as bright as the cut, does not change the result |
| Neighbors.OneNeighborExample | target_selector.py:67-70 | the target alone gives 0; the target plus one more selected star gives 1 |
| Table.SunRA | target_selector.py:132 | the Sun's RA times 365 is the offset times 360, and it is zero exactly at offset zero |
| Table.ParamsFor | target_selector.py:123-132 | the Sun's RA of a date, times 365, is its offset from March 20 times 360; it is zero exactly on March 20 of the date's own year; the latitude and desired Sun distance are carried unchanged |
| Table.RankOf | target_selector.py:135-138 | hours from the Sun times 15 is RA minus the Sun's RA; the absolute hours are non-negative and equal the hours up to sign; the bin is a non-negative integer `b` with `b <= abs(abs_hours - delta_to_sun) < b+1`; the dec-lat distance is non-negative and equals DEC minus latitude up to sign |
| Table.Ranked | target_selector.py:135-138 | ranking keeps the length and order of the table and gives every row the derived columns of its own catalog row |
| Table.Targets | target_selector.py:140 | dropping the derived columns keeps the length and the catalog rows in order |
| Table.RankedTargets | target_selector.py:135-140 | rows carry the derived columns of their catalog rows exactly when ranking their catalog rows gives them back |
| Table.TargetsOfRanked | target_selector.py:135-138 | dropping the derived columns after ranking gives the catalog rows back |
| Table.Lookup | target_selector.py:135-138 | the cell of a row in a named column; its behaviour is stated by `LookupColumns` |
| Table.LookupColumns | target_selector.py:135-138 | the name, RA, DEC and the four derived columns show the row's own values (the bin as an integer); any other column shows the row's cell, or an empty cell when the row has none |
| Table.EquinoxExample | target_selector.py:132-135 | on March 20 the Sun's RA is 0, and a row at RA 180 is 12 hours from the Sun |
| Sorting.SortRows | target_selector.py:140 | `sort_values` by (bin, dec-lat distance), an insertion sort; it returns as many rows as it is given; its order, permutation and stability are the lemmas below |
| Sorting.SortPermutes | target_selector.py:140 | the sorted table has every row exactly as often as the table had it |
| Sorting.SortSorted | target_selector.py:140 | the sorted table is in non-decreasing (bin, dec-lat distance) order |
| Sorting.SortStable | target_selector.py:140 | for every key, the rows with that key keep their table order |
| Sorting.SortKeepsSorted | target_selector.py:140 | sorting a table already in rank order changes nothing |
| Sorting.SortIdempotent | target_selector.py:140 | sorting twice is the same as sorting once |
| Sorting.SortMembers | target_selector.py:140 | the sort keeps the length, and every row it returns is a row of the table |
| Sorting.SortKeepsRanking | target_selector.py:135-140 | rows that carry the derived columns of their catalog rows still do after the sort |
| Sorting.SortedTableRanks | target_selector.py:135-140 | after the sort every row still carries the derived columns of its own catalog row, so the sorted table is the ranking of its own catalog rows |
| Filters.FilterFault | target_selector.py:150-153 | a filter has no fault exactly when it names a known column and does not order a text cell; the fault names the filter's column, and it is an unknown column exactly when the column is missing, and an ordering of text exactly when the column exists and some row has text in it |
| Filters.FirstFault | target_selector.py:150-153 | there is no fault exactly when no filter has one; otherwise the fault is that of some filter, and every filter to its left has none |
| Filters.Compare | target_selector.py:150-153 | a number compared against the filter's literal with one of `<`, `<=`, `>`, `>=`, `==`, `!=` |
| Filters.Holds | target_selector.py:150-153 | a row satisfies a filter when its cell is a number and the comparison holds; an empty (NaN) cell or a text cell satisfies only `!=`; its partner is `CellComparisons` |
| Filters.CellComparisons | target_selector.py:150-153 | on a number cell a filter and its negation are complementary; on an empty or text cell at most one of them holds, and one does only for `==`/`!=` |
| Filters.Keep | target_selector.py:150-153 | the rows that satisfy every filter, in table order; never more rows than the table |
| Filters.FilterRows | target_selector.py:150-153 | filtering succeeds exactly when every filter names a known column and none orders a text cell; it then keeps the rows that satisfy every filter; a failure is the fault of the leftmost faulty filter, which names its column |
| Filters.KeepCounts | target_selector.py:150-153 | a row is kept as many times as the table has it when it satisfies every filter, and never otherwise |
| Filters.KeepSatisfies | target_selector.py:150-153 | every kept row satisfies every filter |
| Filters.KeepSubsequence | target_selector.py:150-153 | the kept rows are a subsequence of the table |
| Filters.KeepSorted | target_selector.py:140-153 | filtering a table in rank order leaves it in rank order |
| Filters.KeepNoFilters | target_selector.py:150 | with no filters every row is kept |
| Filters.FilterRowsNoFilters | target_selector.py:150 | with no filters, filtering succeeds and returns the table unchanged |
| Filters.KeepSnoc | target_selector.py:150-153 | filtering a table with one more row at the end adds that row exactly when it satisfies every filter |
| Filters.LeftmostFaultExample | target_selector.py:150-153 | with `name < 5` before a filter on a missing column, the error is the text ordering on `name`, not the missing column |
| Filters.MagnitudeFilterExample | target_selector.py:150-153 | with magnitudes 10, 12 and 15 and the filter `<= 12`, the first two rows stay |
| Selection.Take | target_selector.py:183 | `head(n)` returns `min(n, len)` elements, and they are the first ones |
| Selection.RowNeighbors | target_selector.py:73-77 | `get_neighbors_helper`: the getter applied to a row's RA and DEC; `NeighborGetterOnRow` relates it to the counter |
| Selection.Qualifying | target_selector.py:165-172 | the rows whose neighbor count is non-zero, in table order, never more than the table; `QualifyingSubsequence` and `QualifyingCounts` characterize them |
| Selection.QualifyingAppend | target_selector.py:165-172 | the rows with a non-zero count in two concatenated parts are those of each part, in order |
| Selection.QualifyingSubsequence | target_selector.py:165-172 | the rows with a non-zero count are a subsequence of the table, all with non-zero counts, and they include every table row whose count is non-zero |
| Selection.QualifyingCounts | target_selector.py:165-172 | each row is kept as many times as the table has it when its count is non-zero, and never otherwise |
| Selection.ScanForNeighbors | target_selector.py:157-179 | the scan keeps the first `n` rows with a non-zero count, or all of them when there are fewer, with their counts in the same order; it reports "not enough" exactly when there are fewer than `n`; the getter is asked only about rows up to the `n`-th hit, and about no row when `n` is 0; when it reports "not enough", it has asked about every row |
| Selection.NeighborGetterOnRow | target_selector.py:73-77 | applying the helper to a row calls the neighbor counter on the row's RA and DEC |
| Selection.RenameColumns | target_selector.py:185 | renaming keeps the number and order of the columns and renames each header on its own; a header is `n_neighbor` exactly when its column is |
| Selection.ProjectRow | target_selector.py:178-183 | one cell per column, in order: the row's cell in that column, except that with a count every `n_neighbor` column shows the count |
| Selection.FirstMissing | target_selector.py:178-183 | there is no result exactly when every requested column exists; a result is a requested column the table lacks, and every requested column before it exists |
| TargetSelector.TargetTable.constructor | target_selector.py:80-81 | a table with the given columns and rows and no rank columns yet |
| TargetSelector.ColumnList.constructor | target_selector.py:82 | a requested-column list with the given names |
| TargetSelector.SelectRows | target_selector.py:155-185 | the selection step: the column check first, then the first `n` rows, or the first `n` rows with a non-zero count and their counts; `ChooseRows` computes it and the lemmas below characterize it |
| TargetSelector.RankTargets | target_selector.py:80-187 | what a call returns on the table and list as they were before it: parse, rank, sort, filter, select; `OrderByBestTarget` computes it and the lemmas below characterize it |
| TargetSelector.OutputRow | target_selector.py:178-183 | one cell per requested column, the row's own cell, except that with a count each requested `n_neighbor` cell is the count; with a count and no requested `n_neighbor`, one more cell holding the count |
| TargetSelector.Tabulate | target_selector.py:178-185 | by position: header `k` is the `k`-th requested column under its output name; with counts, `n_neighbor` is appended last unless it was requested, so the table always has an `n_neighbor` header; row `i` has one cell per header; its cell `k` is the `i`-th chosen row's cell in the `k`-th requested column, except that every cell under an `n_neighbor` header is the row's count |
| TargetSelector.TabulateRankColumns | target_selector.py:135-147 | for rows in rank order with non-negative bins and non-zero counts, and the rank columns appended to the requested ones, the table is `InRankOrder`: `Delta_to_Sun`, `Bin`, `Lat_to_Dec` follow the requested columns; each `Bin` cell is the row's integer bin, at least 0; bins do not decrease down the table, and within a bin `Lat_to_Dec` does not decrease; with counts the table has an `n_neighbor` header, and every cell under it is a non-zero integer |
| TargetSelector.SelectedInRankOrder | target_selector.py:155-185 | a successful selection, with the rank columns requested, of rows in rank order with non-negative bins gives a table that is `InRankOrder` |
| TargetSelector.SelectRowsTable | target_selector.py:157-183 | a successful selection has counts exactly in neighbor mode, one non-zero count per chosen row, and its table is the table of the chosen rows |
| TargetSelector.OrderByBestTarget | target_selector.py:80-187 | the result is `RankTargets` of the table and the list as they were before the call; an unparseable date changes nothing; otherwise the table holds its rows sorted in rank order and carries the rank columns, and the requested columns end with the three rank columns, even when the call then fails |
| TargetSelector.ChooseRows | target_selector.py:155-185 | the selection step as the program runs it (head or the neighbor scan, then the column selection) gives the result `SelectRows` specifies |
| TargetSelector.SelectRowsSubsequence | target_selector.py:155-185 | the chosen rows are at most `n` rows of the filtered table, in its order; the output has one row per chosen row and its columns are the requested ones renamed, then `n_neighbor` in neighbor mode unless it was requested |
| TargetSelector.SubsequenceOfFiltered | target_selector.py:140-153 | a subsequence of sorted, filtered rows is sorted and satisfies the filters |
| TargetSelector.RankTargetsSound | target_selector.py:123-187 | a successful call returns at most `n` rows, in rank order, each carrying the derived columns of its own catalog row and satisfying every filter, taken in order from the sorted table; the output columns are the requested ones and the rank columns, renamed, plus `n_neighbor` in neighbor mode when it was not requested |
| TargetSelector.OutputTableInRankOrder | target_selector.py:135-185 | the table a successful call returns is `InRankOrder`: its `Bin` column holds non-negative integers that do not decrease down the table, `Lat_to_Dec` breaks ties in increasing order, and in neighbor mode the table has an `n_neighbor` column whose cells are all non-zero |
| TargetSelector.HeadModeTakesFirstRows | target_selector.py:183 | without a getter, the call returns the first `min(n, len)` filtered rows in rank order, without counts and without "not enough" |
| TargetSelector.NeighborModeTakesFirstQualifying | target_selector.py:157-179 | with a getter, the call returns the first `n` filtered rows with a non-zero count, with their counts. "Not enough" is reported exactly when fewer than `n` rows qualify. In that case every qualifying row is returned |
| TargetSelector.RankTargetsFailures | target_selector.py:123-183 | the call fails on the date exactly when the date does not parse. Otherwise it fails on a filter exactly when a filter is bad, and on a column exactly when the filters are fine and a requested or rank column is missing. It succeeds exactly when neither happens |
| TargetSelector.RankTargetsIdempotent | target_selector.py:140-147 | a second call on the table the first call sorted, with the same arguments and a fresh list of requested columns, returns the same result |
| TargetSelector.EmptyTableEmptyResult | target_selector.py:150-183 | an empty table gives an empty result rather than an error when the filter and requested columns exist; "not enough" is reported exactly in neighbor mode with `n > 0` |

## Left out

- `main` and everything it does are not modelled: the interactive prompts,
  CSV/TSV loading, the period table, the catalog column renames, and printing.
  These are input and output.
- The "could not find the targets" message is not printed. The model returns
  it as the `notEnough` flag.
- Coordinates and magnitudes are mathematical reals, not IEEE doubles.
  Rounding in `/15`, `360/365` and `diameter/2/60` is therefore not modelled.
- A missing RA or DEC is not modelled: every candidate row has both. So a NaN
  bin never arises, and the `fillna(99)` at line 144 never applies. Lines
  143-144 recompute the same bin already computed at line 137, and the model
  computes it once.
- Filters are typed `(column, op, number)` triples, not pandas query strings.
  String literals, arithmetic and `or`/`not` inside a query are not modelled.
- Pandas row labels are not modelled. The neighbor scan collects labels and
  then selects them with `loc`. The model returns the scanned rows
  themselves. This is the same as long as labels are unique.
- The default `n` of 15 is the constant `TargetSelector.DefaultCount`. Dafny
  has no default arguments, so every call passes `n`.
- TargetSelector.Tabulate: when `n_neighbor` is requested more than once, the
  model shows the counts under every such header. What pandas does when it
  assigns to a duplicated column label is not modelled.
- A negative `n` is not modelled (`n` is a `nat`). Pandas `head` with a
  negative `n` drops rows from the end.
- CivilDate.ParseDate: only ASCII digits are accepted. Python's `\d` also
  matches other Unicode decimal digits, which the `%Y` field and the
  second digit of a `%d` field starting with 1 or 2 accept. The model rejects
  dates written with them. The `%m` field and the other `%d` forms are
  ASCII-only in Python as well.
- The neighbor getter is any function from (RA, DEC) to an integer.
  `Neighbors.NeighborGetter` is the getter the program itself builds. Calls
  to the getter are assumed to have no side effects and to always return.
