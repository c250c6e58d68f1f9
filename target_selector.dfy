/**
 * `order_by_best_target`: ranks a candidate table for an observation date, a
 * latitude and a desired distance from the Sun, filters it, and returns the
 * best rows. As in the original program, the call adds the derived columns to
 * the caller's table and sorts it in place, and extends the caller's list of
 * requested columns.
 */
module TargetSelector {
  import opened Wrappers
  import CivilDate
  import opened Table
  import opened Sorting
  import opened Filters
  import opened Selection

  /** Why a call fails: an unparseable date, a bad filter, or a requested column the table lacks. */
  datatype Error = FormatError(date: string) | FilterFailed(reason: FilterError) | ColumnError(column: string)

  /**
   * What a call returns: the output table, the ranked rows it shows, their
   * neighbor counts in neighbor mode, and whether the neighbor scan ran out of
   * rows before finding enough targets.
   */
  datatype Selected = Selected(rows: seq<Row>, counts: Option<seq<int>>, notEnough: bool, table: ResultTable)

  /** The rank columns a call appends to the requested columns. */
  const RankColumns := [AbsDeltaSunRAColumn, BinColumn, AbsDeltaDecLatColumn]

  /** The number of targets a call returns when the caller does not say. */
  const DefaultCount: nat := 15

  /** The caller's candidate table, which a call ranks and sorts in place. */
  class TargetTable {
    /** Columns other than name, RA, DEC and the rank columns. */
    var attrColumns: seq<string>
    var rows: seq<Target>
    /** The parameters the rank columns were last computed with, if any. */
    var ranking: Option<RankParams>

    constructor (attrColumns: seq<string>, rows: seq<Target>)
      ensures this.attrColumns == attrColumns && this.rows == rows && ranking == None
    {
      this.attrColumns := attrColumns;
      this.rows := rows;
      ranking := None;
    }

    /** The table's column names. */
    function ColumnNames(): seq<string>
      reads this
    {
      BaseColumns + attrColumns + (if ranking.Some? then DerivedColumns else [])
    }
  }

  /** The caller's list of requested output columns, which a call extends. */
  class ColumnList {
    var names: seq<string>

    constructor (names: seq<string>)
      ensures this.names == names
    {
      this.names := names;
    }
  }

  /** Neighbor mode appends an `n_neighbor` column unless one was requested. */
  predicate AppendsCount(requested: seq<string>, counts: Option<seq<int>>) {
    counts.Some? && NeighborColumn !in requested
  }

  /**
   * One row of the output table: its cells under the requested columns, with
   * its neighbor count under `n_neighbor`, which is appended when it was not
   * requested.
   */
  function OutputRow(row: Row, requested: seq<string>, count: Option<int>): (cells: seq<Cell>)
    ensures |cells| == |requested| + (if count.Some? && NeighborColumn !in requested then 1 else 0)
    ensures forall k :: 0 <= k < |requested| && (count.None? || requested[k] != NeighborColumn) ==>
              cells[k] == Lookup(row, requested[k])
    ensures count.Some? ==> forall k :: 0 <= k < |requested| && requested[k] == NeighborColumn ==> cells[k] == Int(count.value)
    ensures count.Some? && NeighborColumn !in requested ==> cells[|requested|] == Int(count.value)
  {
    ProjectRow(row, requested, count) + (if count.Some? && NeighborColumn !in requested then [Int(count.value)] else [])
  }

  /**
   * The output table of the chosen rows. Column `k` of the header is the `k`-th
   * requested column under its output name, and in neighbor mode `n_neighbor`
   * comes last unless it was requested, in which case the counts replace that
   * column. Row `i` shows, in column `k`, the `i`-th chosen row's cell in the
   * `k`-th requested column, and under every `n_neighbor` header its count.
   */
  function Tabulate(rows: seq<Row>, requested: seq<string>, counts: Option<seq<int>>): (t: ResultTable)
    requires counts.Some? ==> |counts.value| == |rows|
    ensures |t.columns| == |requested| + (if AppendsCount(requested, counts) then 1 else 0)
    ensures forall k :: 0 <= k < |requested| ==> t.columns[k] == OutputName(requested[k])
    ensures AppendsCount(requested, counts) ==> t.columns[|requested|] == NeighborColumn
    ensures counts.Some? ==> NeighborColumn in t.columns
    ensures |t.rows| == |rows|
    ensures forall i :: 0 <= i < |rows| ==> |t.rows[i]| == |t.columns|
    ensures forall i, k :: 0 <= i < |rows| && 0 <= k < |requested| && (counts.None? || requested[k] != NeighborColumn) ==>
              t.rows[i][k] == Lookup(rows[i], requested[k])
    ensures counts.Some? ==> forall i, c :: 0 <= i < |rows| && 0 <= c < |t.columns| && t.columns[c] == NeighborColumn ==>
              t.rows[i][c] == Int(counts.value[i])
  {
    var columns := RenameColumns(requested) + (if AppendsCount(requested, counts) then [NeighborColumn] else []);
    assert counts.Some? && !AppendsCount(requested, counts) ==> NeighborColumn in columns by {
      if counts.Some? && !AppendsCount(requested, counts) {
        var c :| 0 <= c < |requested| && requested[c] == NeighborColumn;
        assert columns[c] == NeighborColumn;
      }
    }
    ResultTable(columns, seq(|rows|, i requires 0 <= i < |rows| =>
      OutputRow(rows[i], requested, if counts.Some? then Some(counts.value[i]) else None)))
  }

  /** The selection step on the filtered rows in rank order. */
  function SelectRows(filtered: seq<Row>, requested: seq<string>, columns: seq<string>, n: nat,
                      getter: Option<(real, real) -> int>): Result<Selected, Error>
  {
    match FirstMissing(requested, columns)
    case Some(c) => Failure(ColumnError(c))
    case None =>
      match getter
      case None =>
        var rows := Take(filtered, n);
        Success(Selected(rows, None, false, Tabulate(rows, requested, None)))
      case Some(g) =>
        var q := Qualifying(filtered, g);
        var rows := Take(q, n);
        var counts := seq(|rows|, i requires 0 <= i < |rows| => RowNeighbors(g, rows[i]));
        Success(Selected(rows, Some(counts), |q| < n, Tabulate(rows, requested, Some(counts))))
  }

  /**
   * What a call returns for a table with rows `targets` and other columns
   * `attrColumns`, and requested columns `requested` as they were before the call.
   */
  function RankTargets(targets: seq<Target>, attrColumns: seq<string>, date: string, latitude: real,
                       filters: seq<Filter>, requested: seq<string>, deltaToSun: real, n: nat,
                       getter: Option<(real, real) -> int>): Result<Selected, Error>
  {
    match CivilDate.ParseDate(date)
    case None => Failure(FormatError(date))
    case Some(d) =>
      var p := ParamsFor(d, latitude, deltaToSun);
      var ranked := SortRows(Ranked(targets, p));
      match FilterRows(ranked, filters, Columns(attrColumns))
      case Failure(e) => Failure(FilterFailed(e))
      case Success(filtered) => SelectRows(filtered, requested + RankColumns, Columns(attrColumns), n, getter)
  }

  /**
   * `order_by_best_target`. A date that does not parse fails before anything
   * changes. Otherwise the table gets its rank columns and is sorted in rank
   * order, and the requested columns get the three rank columns appended, even
   * when filtering or the column selection then fails.
   */
  method OrderByBestTarget(table: TargetTable, date: string, latitude: real, filters: seq<Filter>,
                           desired: ColumnList, deltaToSun: real, n: nat,
                           getter: Option<(real, real) -> int>)
    returns (r: Result<Selected, Error>)
    modifies table, desired
    ensures r == RankTargets(old(table.rows), old(table.attrColumns), date, latitude, filters,
                             old(desired.names), deltaToSun, n, getter)
    ensures CivilDate.ParseDate(date).None? ==> unchanged(table) && unchanged(desired)
    ensures CivilDate.ParseDate(date).Some? ==>
              var p := ParamsFor(CivilDate.ParseDate(date).value, latitude, deltaToSun);
              && table.rows == Targets(SortRows(Ranked(old(table.rows), p)))
              && table.ranking == Some(p)
              && table.attrColumns == old(table.attrColumns)
              && desired.names == old(desired.names) + RankColumns
  {
    var parsed := CivilDate.ParseDate(date);
    if parsed.None? {
      return Failure(FormatError(date));
    }
    var p := ParamsFor(parsed.value, latitude, deltaToSun);
    table.ranking := Some(p);
    var sorted := SortRows(Ranked(table.rows, p));
    table.rows := Targets(sorted);
    desired.names := desired.names + RankColumns;
    ghost var columns := Columns(table.attrColumns);
    assert table.ColumnNames() == columns;
    var filterResult := FilterRows(sorted, filters, table.ColumnNames());
    if filterResult.Failure? {
      return Failure(FilterFailed(filterResult.error));
    }
    r := ChooseRows(filterResult.value, desired.names, table.ColumnNames(), n, getter);
  }

  /**
   * The selection step as the program runs it: the first `n` rows, or the
   * neighbor scan, then the column selection, which fails on a requested column
   * the table lacks.
   */
  method ChooseRows(filtered: seq<Row>, requested: seq<string>, columns: seq<string>, n: nat,
                    getter: Option<(real, real) -> int>)
    returns (r: Result<Selected, Error>)
    ensures r == SelectRows(filtered, requested, columns, n, getter)
  {
    var rows: seq<Row>, counts: Option<seq<int>>, notEnough := [], None, false;
    if getter.Some? {
      var kept, found, short, examined := ScanForNeighbors(filtered, n, getter.value);
      assert found == seq(|kept|, i requires 0 <= i < |kept| => RowNeighbors(getter.value, kept[i]));
      rows, counts, notEnough := kept, Some(found), short;
    } else {
      rows := Take(filtered, n);
    }
    var missing := FirstMissing(requested, columns);
    if missing.Some? {
      return Failure(ColumnError(missing.value));
    }
    r := Success(Selected(rows, counts, notEnough, Tabulate(rows, requested, counts)));
  }

  /** The rows a successful call chooses from: the sorted table, ranked, then filtered. */
  function Candidates(targets: seq<Target>, p: RankParams, filters: seq<Filter>): seq<Row> {
    Keep(SortRows(Ranked(targets, p)), filters)
  }

  /** The rows chosen by the selection step are at most `n` of the filtered rows, in their order. */
  lemma SelectRowsSubsequence(filtered: seq<Row>, requested: seq<string>, columns: seq<string>, n: nat,
                              getter: Option<(real, real) -> int>)
    requires SelectRows(filtered, requested, columns, n, getter).Success?
    ensures var s := SelectRows(filtered, requested, columns, n, getter).value;
            && |s.rows| <= n
            && IsSubsequence(s.rows, filtered)
            && |s.table.rows| == |s.rows|
            && s.table.columns == RenameColumns(requested) + (if getter.Some? && NeighborColumn !in requested then [NeighborColumn] else [])
  {
    var s := SelectRows(filtered, requested, columns, n, getter).value;
    var chosenFrom := if getter.Some? then Qualifying(filtered, getter.value) else filtered;
    if getter.Some? {
      QualifyingSubsequence(filtered, getter.value);
    } else {
      PrefixIsSubsequence(filtered, |filtered|);
      assert filtered[..|filtered|] == filtered;
    }
    assert s.rows == Take(chosenFrom, n);
    PrefixIsSubsequence(chosenFrom, |s.rows|);
    assert s.rows == chosenFrom[..|s.rows|];
    SubsequenceTrans(s.rows, chosenFrom, filtered);
  }

  /**
   * A subsequence of rows in rank order, that carry their own derived columns
   * and all satisfy the filters, has the same three properties.
   */
  lemma SubsequenceOfFiltered(a: seq<Row>, b: seq<Row>, filters: seq<Filter>, p: RankParams)
    requires IsSubsequence(a, b) && RowsSorted(b) && RankedWith(b, p)
    requires forall i :: 0 <= i < |b| ==> AllHold(b[i], filters)
    ensures RowsSorted(a) && RankedWith(a, p)
    ensures forall i :: 0 <= i < |a| ==> AllHold(a[i], filters)
  {
    var idx :| SubsequenceAt(a, b, idx);
  }

  /**
   * Every successful call returns at most `n` rows, in rank order, each one
   * satisfying every filter, in the order of the sorted table; the output
   * columns are the requested ones and then the three rank columns, renamed,
   * with `n_neighbor` last in neighbor mode unless it was requested.
   */
  lemma RankTargetsSound(targets: seq<Target>, attrColumns: seq<string>, date: string, latitude: real,
                         filters: seq<Filter>, requested: seq<string>, deltaToSun: real, n: nat,
                         getter: Option<(real, real) -> int>)
    requires RankTargets(targets, attrColumns, date, latitude, filters, requested, deltaToSun, n, getter).Success?
    ensures CivilDate.ParseDate(date).Some?
    ensures var s := RankTargets(targets, attrColumns, date, latitude, filters, requested, deltaToSun, n, getter).value;
            var p := ParamsFor(CivilDate.ParseDate(date).value, latitude, deltaToSun);
            && |s.rows| <= n
            && RowsSorted(s.rows)
            && RankedWith(s.rows, p)
            && (forall i :: 0 <= i < |s.rows| ==> AllHold(s.rows[i], filters))
            && IsSubsequence(s.rows, SortRows(Ranked(targets, p)))
            && |s.table.rows| == |s.rows|
            && s.table.columns == RenameColumns(requested + RankColumns)
                                  + (if getter.Some? && NeighborColumn !in requested then [NeighborColumn] else [])
  {
    var p := ParamsFor(CivilDate.ParseDate(date).value, latitude, deltaToSun);
    var ranked := SortRows(Ranked(targets, p));
    var filtered := Keep(ranked, filters);
    assert RankTargets(targets, attrColumns, date, latitude, filters, requested, deltaToSun, n, getter)
        == SelectRows(filtered, requested + RankColumns, Columns(attrColumns), n, getter);
    var s := SelectRows(filtered, requested + RankColumns, Columns(attrColumns), n, getter).value;
    SortSorted(Ranked(targets, p));
    SortedTableRanks(targets, p);
    KeepSorted(ranked, filters);
    KeepSatisfies(ranked, filters);
    KeepSubsequence(ranked, filters);
    SelectRowsSubsequence(filtered, requested + RankColumns, Columns(attrColumns), n, getter);
    assert NeighborColumn in requested + RankColumns <==> NeighborColumn in requested;
    var idx :| SubsequenceAt(filtered, ranked, idx);
    assert RankedWith(filtered, p);
    SubsequenceOfFiltered(s.rows, filtered, filters, p);
    SubsequenceTrans(s.rows, filtered, ranked);
  }

  /**
   * An output table of `rows` in rank order whose first `k` columns are the
   * requested ones: `Delta_to_Sun`, `Bin` and `Lat_to_Dec` come next, and in
   * neighbor mode the table has an `n_neighbor` column. Every `Bin` cell is the
   * row's bin, a non-negative integer. The bins do not decrease down the table,
   * and where two rows share a bin their `Lat_to_Dec` cells do not decrease. In
   * neighbor mode every cell under `n_neighbor` is a non-zero integer.
   */
  predicate InRankOrder(t: ResultTable, rows: seq<Row>, k: nat, neighbors: bool) {
    && |t.columns| >= k + 3
    && t.columns[k] == "Delta_to_Sun" && t.columns[k + 1] == "Bin" && t.columns[k + 2] == "Lat_to_Dec"
    && (neighbors ==> NeighborColumn in t.columns)
    && |t.rows| == |rows|
    && (forall i :: 0 <= i < |rows| ==>
          && |t.rows[i]| == |t.columns|
          && t.rows[i][k + 1] == Int(rows[i].rank.bin) && rows[i].rank.bin >= 0
          && t.rows[i][k + 2] == Num(rows[i].rank.absDeltaDecLat))
    && (neighbors ==> forall i, c :: 0 <= i < |rows| && 0 <= c < |t.columns| && t.columns[c] == NeighborColumn ==>
          t.rows[i][c].Int? && t.rows[i][c].i != 0)
    && (forall i, j :: 0 <= i < j < |rows| ==>
          && rows[i].rank.bin <= rows[j].rank.bin
          && (rows[i].rank.bin == rows[j].rank.bin ==> rows[i].rank.absDeltaDecLat <= rows[j].rank.absDeltaDecLat))
  }

  /** The output table of rows in rank order, with the rank columns appended to the requested ones, is in rank order. */
  lemma TabulateRankColumns(rows: seq<Row>, requested: seq<string>, counts: Option<seq<int>>)
    requires counts.Some? ==> |counts.value| == |rows| && forall i :: 0 <= i < |rows| ==> counts.value[i] != 0
    requires RowsSorted(rows)
    requires forall i :: 0 <= i < |rows| ==> rows[i].rank.bin >= 0
    ensures InRankOrder(Tabulate(rows, requested + RankColumns, counts), rows, |requested|, counts.Some?)
  {
    var all, k := requested + RankColumns, |requested|;
    var t := Tabulate(rows, all, counts);
    assert all[k] == AbsDeltaSunRAColumn && all[k + 1] == BinColumn && all[k + 2] == AbsDeltaDecLatColumn;
    assert |all| == k + 3;
    forall i | 0 <= i < |rows|
      ensures t.rows[i][k + 1] == Int(rows[i].rank.bin) && t.rows[i][k + 2] == Num(rows[i].rank.absDeltaDecLat)
    {
      LookupColumns(rows[i], BinColumn);
    }
  }

  /** The table of a successful selection is the table of the rows it chose, with their non-zero counts in neighbor mode. */
  lemma SelectRowsTable(filtered: seq<Row>, requested: seq<string>, columns: seq<string>, n: nat,
                        getter: Option<(real, real) -> int>)
    requires SelectRows(filtered, requested, columns, n, getter).Success?
    ensures var s := SelectRows(filtered, requested, columns, n, getter).value;
            && (s.counts.Some? <==> getter.Some?)
            && (s.counts.Some? ==> |s.counts.value| == |s.rows| && forall i :: 0 <= i < |s.rows| ==> s.counts.value[i] != 0)
            && s.table == Tabulate(s.rows, requested, s.counts)
  {
    if getter.Some? {
      QualifyingSubsequence(filtered, getter.value);
    }
  }

  /** The table of a successful selection among rows in rank order with non-negative bins is in rank order. */
  lemma SelectedInRankOrder(filtered: seq<Row>, requested: seq<string>, columns: seq<string>, n: nat,
                            getter: Option<(real, real) -> int>)
    requires SelectRows(filtered, requested + RankColumns, columns, n, getter).Success?
    requires RowsSorted(SelectRows(filtered, requested + RankColumns, columns, n, getter).value.rows)
    requires var rows := SelectRows(filtered, requested + RankColumns, columns, n, getter).value.rows;
             forall i :: 0 <= i < |rows| ==> rows[i].rank.bin >= 0
    ensures var s := SelectRows(filtered, requested + RankColumns, columns, n, getter).value;
            InRankOrder(s.table, s.rows, |requested|, getter.Some?)
  {
    var s := SelectRows(filtered, requested + RankColumns, columns, n, getter).value;
    SelectRowsTable(filtered, requested + RankColumns, columns, n, getter);
    TabulateRankColumns(s.rows, requested, s.counts);
  }

  /** The table a successful call returns is in rank order, as InRankOrder describes. */
  lemma OutputTableInRankOrder(targets: seq<Target>, attrColumns: seq<string>, date: string, latitude: real,
                               filters: seq<Filter>, requested: seq<string>, deltaToSun: real, n: nat,
                               getter: Option<(real, real) -> int>)
    requires RankTargets(targets, attrColumns, date, latitude, filters, requested, deltaToSun, n, getter).Success?
    ensures var s := RankTargets(targets, attrColumns, date, latitude, filters, requested, deltaToSun, n, getter).value;
            InRankOrder(s.table, s.rows, |requested|, getter.Some?)
  {
    RankTargetsSound(targets, attrColumns, date, latitude, filters, requested, deltaToSun, n, getter);
    var p := ParamsFor(CivilDate.ParseDate(date).value, latitude, deltaToSun);
    var filtered := Keep(SortRows(Ranked(targets, p)), filters);
    assert RankTargets(targets, attrColumns, date, latitude, filters, requested, deltaToSun, n, getter)
        == SelectRows(filtered, requested + RankColumns, Columns(attrColumns), n, getter);
    SelectedInRankOrder(filtered, requested, Columns(attrColumns), n, getter);
  }

  /** Without a neighbor getter a call returns the first `n` filtered rows in rank order. */
  lemma HeadModeTakesFirstRows(targets: seq<Target>, attrColumns: seq<string>, date: string, latitude: real,
                               filters: seq<Filter>, requested: seq<string>, deltaToSun: real, n: nat)
    requires RankTargets(targets, attrColumns, date, latitude, filters, requested, deltaToSun, n, None).Success?
    ensures CivilDate.ParseDate(date).Some?
    ensures var s := RankTargets(targets, attrColumns, date, latitude, filters, requested, deltaToSun, n, None).value;
            var c := Candidates(targets, ParamsFor(CivilDate.ParseDate(date).value, latitude, deltaToSun), filters);
            && |s.rows| == (if n < |c| then n else |c|)
            && s.rows == c[..|s.rows|]
            && s.counts.None? && !s.notEnough
  {
  }

  /**
   * With a neighbor getter a call returns the first `n` filtered rows in rank
   * order whose count is non-zero, or all of them when there are fewer, with
   * their counts; the call reports that it found too few exactly when there
   * are fewer than `n`, and then it has returned every row whose count is
   * non-zero.
   */
  lemma NeighborModeTakesFirstQualifying(targets: seq<Target>, attrColumns: seq<string>, date: string,
                                         latitude: real, filters: seq<Filter>, requested: seq<string>,
                                         deltaToSun: real, n: nat, getter: (real, real) -> int)
    requires RankTargets(targets, attrColumns, date, latitude, filters, requested, deltaToSun, n, Some(getter)).Success?
    ensures CivilDate.ParseDate(date).Some?
    ensures var s := RankTargets(targets, attrColumns, date, latitude, filters, requested, deltaToSun, n, Some(getter)).value;
            var c := Candidates(targets, ParamsFor(CivilDate.ParseDate(date).value, latitude, deltaToSun), filters);
            var q := Qualifying(c, getter);
            && s.rows == Take(q, n)
            && s.counts.Some? && |s.counts.value| == |s.rows|
            && (forall i :: 0 <= i < |s.rows| ==> s.counts.value[i] == RowNeighbors(getter, s.rows[i]) != 0)
            && (s.notEnough <==> |q| < n)
            && (s.notEnough ==> forall i :: 0 <= i < |c| && RowNeighbors(getter, c[i]) != 0 ==> c[i] in s.rows)
  {
    var c := Candidates(targets, ParamsFor(CivilDate.ParseDate(date).value, latitude, deltaToSun), filters);
    QualifyingSubsequence(c, getter);
  }

  /**
   * A call fails exactly when the date does not parse, a filter names a column
   * the ranked table lacks or orders a text cell, or a requested column is not
   * in the table; the checks happen in that order.
   */
  lemma RankTargetsFailures(targets: seq<Target>, attrColumns: seq<string>, date: string, latitude: real,
                            filters: seq<Filter>, requested: seq<string>, deltaToSun: real, n: nat,
                            getter: Option<(real, real) -> int>)
    ensures var r := RankTargets(targets, attrColumns, date, latitude, filters, requested, deltaToSun, n, getter);
            && (r == Failure(FormatError(date)) <==> CivilDate.ParseDate(date).None?)
            && (CivilDate.ParseDate(date).Some? ==>
                  var p := ParamsFor(CivilDate.ParseDate(date).value, latitude, deltaToSun);
                  var ranked := SortRows(Ranked(targets, p));
                  var filtersOk := forall k :: 0 <= k < |filters| ==>
                                     filters[k].column in Columns(attrColumns) && !Unorderable(ranked, filters[k]);
                  var columnsOk := forall k :: 0 <= k < |requested + RankColumns| ==>
                                     (requested + RankColumns)[k] in Columns(attrColumns);
                  && (r.Failure? && r.error.FilterFailed? <==> !filtersOk)
                  && (r.Failure? && r.error.ColumnError? <==> filtersOk && !columnsOk)
                  && (r.Success? <==> filtersOk && columnsOk))
  {
  }

  /**
   * A second call with the same arguments on the table the first call sorted,
   * and with a fresh copy of the requested columns, returns the same result.
   */
  lemma RankTargetsIdempotent(targets: seq<Target>, attrColumns: seq<string>, date: string, latitude: real,
                              filters: seq<Filter>, requested: seq<string>, deltaToSun: real, n: nat,
                              getter: Option<(real, real) -> int>)
    requires CivilDate.ParseDate(date).Some?
    ensures var p := ParamsFor(CivilDate.ParseDate(date).value, latitude, deltaToSun);
            RankTargets(Targets(SortRows(Ranked(targets, p))), attrColumns, date, latitude, filters, requested, deltaToSun, n, getter)
            == RankTargets(targets, attrColumns, date, latitude, filters, requested, deltaToSun, n, getter)
  {
    var p := ParamsFor(CivilDate.ParseDate(date).value, latitude, deltaToSun);
    SortedTableRanks(targets, p);
    SortIdempotent(Ranked(targets, p));
  }

  /** An empty table gives an empty result, not an error, when the filters and columns exist. */
  lemma EmptyTableEmptyResult(attrColumns: seq<string>, date: string, latitude: real, filters: seq<Filter>,
                              requested: seq<string>, deltaToSun: real, n: nat, getter: Option<(real, real) -> int>)
    requires CivilDate.ParseDate(date).Some?
    requires forall k :: 0 <= k < |filters| ==> filters[k].column in Columns(attrColumns)
    requires forall k :: 0 <= k < |requested| ==> requested[k] in Columns(attrColumns)
    ensures var r := RankTargets([], attrColumns, date, latitude, filters, requested, deltaToSun, n, getter);
            && r.Success? && r.value.rows == [] && r.value.table.rows == []
            && (r.value.notEnough <==> getter.Some? && n > 0)
  {
    var p := ParamsFor(CivilDate.ParseDate(date).value, latitude, deltaToSun);
    assert SortRows(Ranked([], p)) == [];
    var cols := Columns(attrColumns);
    assert forall k :: 0 <= k < |RankColumns| ==> RankColumns[k] in cols;
    assert forall k :: 0 <= k < |requested + RankColumns| ==> (requested + RankColumns)[k] in cols by {
      forall k | 0 <= k < |requested + RankColumns| ensures (requested + RankColumns)[k] in cols {
        if k >= |requested| {
          assert (requested + RankColumns)[k] == RankColumns[k - |requested|];
        }
      }
    }
  }
}
