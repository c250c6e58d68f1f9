/**
 * User filters as typed predicates `column op literal`, all of which a row must
 * satisfy. Comparison follows the table's cells: an empty (NaN) cell fails every
 * comparison except `!=`, a text cell is never equal to a number and cannot be
 * ordered against one, and a column the table does not have is an error.
 */
module Filters {
  import opened Wrappers
  import opened Table
  import opened Sorting

  datatype Op = Lt | Le | Gt | Ge | Eq | Ne

  datatype Filter = Filter(column: string, op: Op, literal: real)

  /** Why filtering failed: the column the offending filter names. */
  datatype FilterError = UndefinedColumn(column: string) | UnorderableColumn(column: string)

  predicate IsOrdering(op: Op) {
    op == Lt || op == Le || op == Gt || op == Ge
  }

  /** The comparison that holds exactly when `op` does not, between two numbers. */
  function Negate(op: Op): Op {
    match op
    case Lt => Ge
    case Le => Gt
    case Gt => Le
    case Ge => Lt
    case Eq => Ne
    case Ne => Eq
  }

  function Compare(x: real, op: Op, y: real): bool {
    match op
    case Lt => x < y
    case Le => x <= y
    case Gt => x > y
    case Ge => x >= y
    case Eq => x == y
    case Ne => x != y
  }

  /** Whether one row satisfies one filter. */
  predicate Holds(row: Row, f: Filter) {
    match Lookup(row, f.column)
    case Num(x) => Compare(x, f.op, f.literal)
    case Int(i) => Compare(i as real, f.op, f.literal)
    case Text(_) => f.op == Ne
    case Missing => f.op == Ne
  }

  /** Whether a row satisfies every filter. */
  predicate AllHold(row: Row, filters: seq<Filter>) {
    forall k :: 0 <= k < |filters| ==> Holds(row, filters[k])
  }

  /** The rows that satisfy every filter, in their order. */
  function Keep(rows: seq<Row>, filters: seq<Filter>): (r: seq<Row>)
    ensures |r| <= |rows|
  {
    if rows == [] then []
    else Keep(rows[..|rows| - 1], filters) + (if AllHold(rows[|rows| - 1], filters) then [rows[|rows| - 1]] else [])
  }

  /** A filter that orders a text cell of some row against a number. */
  predicate Unorderable(rows: seq<Row>, f: Filter) {
    IsOrdering(f.op) && exists i :: 0 <= i < |rows| && Lookup(rows[i], f.column).Text?
  }

  /**
   * What is wrong with one filter, if anything: it names a column the table
   * lacks, or it orders a text cell against a number.
   */
  function FilterFault(rows: seq<Row>, f: Filter, columns: seq<string>): (r: Option<FilterError>)
    ensures r.None? <==> f.column in columns && !Unorderable(rows, f)
    ensures r.Some? ==> r.value.column == f.column
    ensures r.Some? && r.value.UndefinedColumn? <==> f.column !in columns
    ensures r.Some? && r.value.UnorderableColumn? <==> f.column in columns && Unorderable(rows, f)
  {
    if f.column !in columns then Some(UndefinedColumn(f.column))
    else if Unorderable(rows, f) then Some(UnorderableColumn(f.column))
    else None
  }

  /**
   * The fault of the leftmost faulty filter: the query is evaluated from left
   * to right, so the first filter that names a missing column or orders a text
   * cell decides the error.
   */
  function FirstFault(rows: seq<Row>, filters: seq<Filter>, columns: seq<string>): (r: Option<FilterError>)
    ensures r.None? <==> forall k :: 0 <= k < |filters| ==> FilterFault(rows, filters[k], columns).None?
    ensures r.Some? ==> exists k :: 0 <= k < |filters| && FilterFault(rows, filters[k], columns) == r
                                    && forall j :: 0 <= j < k ==> FilterFault(rows, filters[j], columns).None?
  {
    if filters == [] then None
    else if FilterFault(rows, filters[0], columns).Some? then FilterFault(rows, filters[0], columns)
    else
      var r := FirstFault(rows, filters[1..], columns);
      assert forall k :: 1 <= k < |filters| ==> filters[k] == filters[1..][k - 1];
      assert r.Some? ==> exists k :: 1 <= k < |filters| && FilterFault(rows, filters[k], columns) == r
                                     && forall j :: 0 <= j < k ==> FilterFault(rows, filters[j], columns).None?;
      r
  }

  /**
   * `query` with the conjunction of the filters on a table with columns
   * `columns`: the error of the leftmost filter that names a column the table
   * lacks or orders a text cell against a number; otherwise the rows that
   * satisfy every filter.
   */
  function FilterRows(rows: seq<Row>, filters: seq<Filter>, columns: seq<string>): (r: Result<seq<Row>, FilterError>)
    ensures r.Success? <==>
            (forall k :: 0 <= k < |filters| ==> filters[k].column in columns && !Unorderable(rows, filters[k]))
    ensures r.Success? ==> r.value == Keep(rows, filters)
    ensures r.Failure? ==> exists k :: 0 <= k < |filters| && FilterFault(rows, filters[k], columns) == Some(r.error)
                                       && forall j :: 0 <= j < k ==> FilterFault(rows, filters[j], columns).None?
    ensures r.Failure? && r.error.UndefinedColumn? ==> r.error.column !in columns
    ensures r.Failure? && r.error.UnorderableColumn? ==>
            exists k :: 0 <= k < |filters| && filters[k].column == r.error.column && Unorderable(rows, filters[k])
  {
    match FirstFault(rows, filters, columns)
    case Some(e) => Failure(e)
    case None => Success(Keep(rows, filters))
  }

  /**
   * On a number cell a filter and its negation are complementary. On an empty
   * or text cell they are not: at most one of them holds, and one does only
   * for `==` and `!=`.
   */
  lemma CellComparisons(row: Row, f: Filter)
    ensures var negated := Filter(f.column, Negate(f.op), f.literal);
            && ((Lookup(row, f.column).Num? || Lookup(row, f.column).Int?) ==> Holds(row, negated) == !Holds(row, f))
            && ((Lookup(row, f.column).Missing? || Lookup(row, f.column).Text?) ==>
                  !(Holds(row, f) && Holds(row, negated))
                  && (Holds(row, f) || Holds(row, negated) <==> f.op == Eq || f.op == Ne))
  {
  }

  /** A row is kept exactly as many times as it occurs, if it satisfies every filter, and never otherwise. */
  lemma {:induction false} KeepCounts(rows: seq<Row>, filters: seq<Filter>, r: Row)
    ensures multiset(Keep(rows, filters))[r] == if AllHold(r, filters) then multiset(rows)[r] else 0
  {
    if rows != [] {
      var n := |rows| - 1;
      KeepCounts(rows[..n], filters, r);
      assert rows == rows[..n] + [rows[n]];
    }
  }

  /** Every kept row satisfies every filter. */
  lemma {:induction false} KeepSatisfies(rows: seq<Row>, filters: seq<Filter>)
    ensures forall i :: 0 <= i < |Keep(rows, filters)| ==> AllHold(Keep(rows, filters)[i], filters)
  {
    if rows != [] {
      KeepSatisfies(rows[..|rows| - 1], filters);
    }
  }

  /** The kept rows appear in the same relative order as in the table. */
  lemma {:induction false} KeepSubsequence(rows: seq<Row>, filters: seq<Filter>)
    ensures IsSubsequence(Keep(rows, filters), rows)
  {
    if rows == [] {
      assert SubsequenceAt<Row>([], [], []);
    } else {
      var n := |rows| - 1;
      KeepSubsequence(rows[..n], filters);
      var idx :| SubsequenceAt(Keep(rows[..n], filters), rows[..n], idx);
      if AllHold(rows[n], filters) {
        assert SubsequenceAt(Keep(rows, filters), rows, idx + [n]);
      } else {
        assert SubsequenceAt(Keep(rows, filters), rows, idx);
      }
    }
  }

  /** Filtering rows in rank order leaves them in rank order. */
  lemma {:induction false} KeepSorted(rows: seq<Row>, filters: seq<Filter>)
    requires RowsSorted(rows)
    ensures RowsSorted(Keep(rows, filters))
  {
    KeepSubsequence(rows, filters);
    var idx :| SubsequenceAt(Keep(rows, filters), rows, idx);
  }

  /** With no filters the table is left as it is. */
  lemma {:induction false} KeepNoFilters(rows: seq<Row>)
    ensures Keep(rows, []) == rows
  {
    if rows != [] {
      KeepNoFilters(rows[..|rows| - 1]);
    }
  }

  /** With no filters filtering cannot fail. */
  lemma FilterRowsNoFilters(rows: seq<Row>, columns: seq<string>)
    ensures FilterRows(rows, [], columns) == Success(rows)
  {
    KeepNoFilters(rows);
  }

  /** Filtering a table with one more row at the end. */
  lemma KeepSnoc(rows: seq<Row>, x: Row, filters: seq<Filter>)
    ensures Keep(rows + [x], filters) == Keep(rows, filters) + (if AllHold(x, filters) then [x] else [])
  {
    assert (rows + [x])[..|rows|] == rows;
  }

  /** Rows whose magnitude column holds 10, 12 and 15 under `column <= 12`: the first two stay. */
  lemma MagnitudeFilterExample(a: Row, b: Row, c: Row, column: string)
    requires Lookup(a, column) == Num(10.0)
    requires Lookup(b, column) == Num(12.0)
    requires Lookup(c, column) == Num(15.0)
    ensures Keep([a, b, c], [Filter(column, Le, 12.0)]) == [a, b]
  {
    var fs := [Filter(column, Le, 12.0)];
    assert AllHold(a, fs) && AllHold(b, fs) && !AllHold(c, fs) by {
      assert Holds(a, fs[0]) && Holds(b, fs[0]) && !Holds(c, fs[0]);
    }
    KeepSnoc([], a, fs);
    KeepSnoc([a], b, fs);
    KeepSnoc([a, b], c, fs);
    assert [a] + [b] == [a, b] && [a, b] + [c] == [a, b, c];
  }

  /**
   * `name < 5` before a filter on a missing column: the text column is met
   * first, so the error names it, not the missing column.
   */
  lemma LeftmostFaultExample(row: Row, missing: string)
    requires missing !in Columns([])
    ensures FilterRows([row], [Filter(NameColumn, Lt, 5.0), Filter(missing, Le, 1.0)], Columns([]))
            == Failure(UnorderableColumn(NameColumn))
  {
    assert Lookup([row][0], NameColumn).Text?;
  }
}
