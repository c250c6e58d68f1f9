/**
 * Choosing the rows to return from the filtered table in rank order: the first
 * `n` rows, or, when a neighbor getter is given, the first `n` rows whose
 * neighbor count is non-zero, found by a scan that stops at the `n`-th one; and
 * laying out the chosen rows under the requested, renamed columns.
 */
module Selection {
  import opened Wrappers
  import opened Table
  import Neighbors

  /** `get_neighbors_helper`: a neighbor getter applied to a row's RA and DEC. */
  function RowNeighbors(getter: (real, real) -> int, row: Row): int {
    getter(row.target.ra, row.target.dec)
  }

  /** The rows with a non-zero neighbor count, in their order. */
  function Qualifying(rows: seq<Row>, getter: (real, real) -> int): (r: seq<Row>)
    ensures |r| <= |rows|
  {
    if rows == [] then []
    else
      var last := rows[|rows| - 1];
      Qualifying(rows[..|rows| - 1], getter) + (if RowNeighbors(getter, last) != 0 then [last] else [])
  }

  /** `head(n)`: the first `n` elements, or all of them when there are fewer. */
  function Take<T>(s: seq<T>, n: nat): (r: seq<T>)
    ensures |r| <= n && |r| <= |s|
    ensures |r| == n || |r| == |s|
    ensures forall k :: 0 <= k < |r| ==> r[k] == s[k]
  {
    if n < |s| then s[..n] else s
  }

  lemma {:induction false} QualifyingAppend(a: seq<Row>, b: seq<Row>, getter: (real, real) -> int)
    ensures Qualifying(a + b, getter) == Qualifying(a, getter) + Qualifying(b, getter)
  {
    if b == [] {
      assert a + b == a;
    } else {
      var n := |b| - 1;
      var ab := a + b;
      QualifyingAppend(a, b[..n], getter);
      assert ab[..|ab| - 1] == a + b[..n] && ab[|ab| - 1] == b[n];
      assert Qualifying(ab, getter)
          == Qualifying(a + b[..n], getter) + (if RowNeighbors(getter, b[n]) != 0 then [b[n]] else []);
    }
  }

  /** Extending a prefix of the table by one row extends its qualifying rows by that row when its count is non-zero. */
  lemma QualifyingStep(rows: seq<Row>, next: nat, getter: (real, real) -> int)
    requires next < |rows|
    ensures Qualifying(rows[..next + 1], getter)
         == Qualifying(rows[..next], getter) + (if RowNeighbors(getter, rows[next]) != 0 then [rows[next]] else [])
  {
    assert rows[..next + 1][..next] == rows[..next];
  }

  /**
   * The qualifying rows are the rows of the table, in order, whose count is
   * non-zero, and every row left out has count zero.
   */
  lemma {:induction false} QualifyingSubsequence(rows: seq<Row>, getter: (real, real) -> int)
    ensures IsSubsequence(Qualifying(rows, getter), rows)
    ensures forall k :: 0 <= k < |Qualifying(rows, getter)| ==> RowNeighbors(getter, Qualifying(rows, getter)[k]) != 0
    ensures forall i :: 0 <= i < |rows| && RowNeighbors(getter, rows[i]) != 0 ==> rows[i] in Qualifying(rows, getter)
  {
    if rows == [] {
      assert SubsequenceAt<Row>([], [], []);
    } else {
      var n := |rows| - 1;
      QualifyingSubsequence(rows[..n], getter);
      var q := Qualifying(rows[..n], getter);
      var idx :| SubsequenceAt(q, rows[..n], idx);
      if RowNeighbors(getter, rows[n]) != 0 {
        assert SubsequenceAt(Qualifying(rows, getter), rows, idx + [n]);
      } else {
        assert SubsequenceAt(Qualifying(rows, getter), rows, idx);
      }
      forall i | 0 <= i < |rows| && RowNeighbors(getter, rows[i]) != 0
        ensures rows[i] in Qualifying(rows, getter)
      {
        if i < n {
          assert rows[..n][i] == rows[i];
        }
      }
    }
  }

  /**
   * Each row is among the qualifying rows as often as the table has it when its
   * count is non-zero, and never otherwise.
   */
  lemma {:induction false} QualifyingCounts(rows: seq<Row>, getter: (real, real) -> int, r: Row)
    ensures multiset(Qualifying(rows, getter))[r] == if RowNeighbors(getter, r) != 0 then multiset(rows)[r] else 0
  {
    if rows != [] {
      var n := |rows| - 1;
      QualifyingCounts(rows[..n], getter, r);
      assert rows == rows[..n] + [rows[n]];
    }
  }

  /**
   * The scan of the neighbor mode: walks the rows in order, asking the getter
   * for each row's count, and keeps a row and its count when the count is
   * non-zero, until `n` rows are kept or the rows run out.
   *
   * It keeps the first `n` qualifying rows, or all of them when there are fewer;
   * `notEnough` is the "could not find n targets" diagnostic and is raised only
   * when the rows run out first; `examined` is the number of rows the getter was
   * asked about, which ends at the `n`-th kept row, and is zero when `n` is.
   */
  method ScanForNeighbors(rows: seq<Row>, n: nat, getter: (real, real) -> int)
    returns (kept: seq<Row>, counts: seq<int>, notEnough: bool, ghost examined: nat)
    ensures kept == Take(Qualifying(rows, getter), n)
    ensures |counts| == |kept|
    ensures forall k :: 0 <= k < |kept| ==> counts[k] == RowNeighbors(getter, kept[k]) && counts[k] != 0
    ensures notEnough <==> |Qualifying(rows, getter)| < n
    ensures examined <= |rows| && Qualifying(rows[..examined], getter) == kept
    ensures notEnough ==> examined == |rows|
    ensures !notEnough && n > 0 ==> 0 < examined && RowNeighbors(getter, rows[examined - 1]) != 0
    ensures n == 0 ==> examined == 0
  {
    var i, next := 0, 0;
    kept, counts, notEnough := [], [], false;
    while i < n
      invariant 0 <= next <= |rows| && i <= n
      invariant kept == Qualifying(rows[..next], getter) && |kept| == i
      invariant |counts| == i
      invariant forall k :: 0 <= k < i ==> counts[k] == RowNeighbors(getter, kept[k]) && counts[k] != 0
      invariant notEnough ==> next == |rows| && i < n
      invariant i == n && n > 0 ==> 0 < next && RowNeighbors(getter, rows[next - 1]) != 0
      invariant n == 0 ==> next == 0
      decreases |rows| - next, !notEnough
    {
      if next == |rows| {
        notEnough := true;
        break;
      }
      var row := rows[next];
      QualifyingStep(rows, next, getter);
      next := next + 1;
      var count := RowNeighbors(getter, row);
      if count != 0 {
        kept := kept + [row];
        counts := counts + [count];
        i := i + 1;
      }
    }
    examined := next;
    assert rows == rows[..next] + rows[next..];
    QualifyingAppend(rows[..next], rows[next..], getter);
    if notEnough {
      assert rows[..next] == rows;
    }
  }

  /** The getter the program builds from the neighbor counter counts the row's neighbors. */
  lemma NeighborGetterOnRow(diameter: real, vCut: real, catalog: seq<Neighbors.Star>, row: Row)
    ensures RowNeighbors(Neighbors.NeighborGetter(diameter, vCut, catalog), row)
         == Neighbors.GetNeighbors(row.target.ra, row.target.dec, diameter, vCut, catalog)
  {
  }

  // ---------------------------------------------------------------------------
  // The output table

  /** A result table: column headers and one list of cells per row. */
  datatype ResultTable = ResultTable(columns: seq<string>, rows: seq<seq<Cell>>)

  const NeighborColumn := "n_neighbor"

  /** The header under which a column is shown: the three rank columns get readable names. */
  function OutputName(column: string): string {
    if column == AbsDeltaSunRAColumn then "Delta_to_Sun"
    else if column == BinColumn then "Bin"
    else if column == AbsDeltaDecLatColumn then "Lat_to_Dec"
    else column
  }

  /** `rename(columns={...})`: every header through OutputName, in order. */
  function RenameColumns(columns: seq<string>): (r: seq<string>)
    ensures |r| == |columns|
    ensures forall k :: 0 <= k < |columns| ==> r[k] == OutputName(columns[k])
    ensures forall k :: 0 <= k < |columns| ==> (r[k] == NeighborColumn <==> columns[k] == NeighborColumn)
  {
    if columns == [] then []
    else
      OutputNameNeighbor(columns[0]);
      [OutputName(columns[0])] + RenameColumns(columns[1..])
  }

  /**
   * The cells of a row under the given columns; with a neighbor count, the
   * `n_neighbor` column shows the count instead of the table's cell.
   */
  function ProjectRow(row: Row, columns: seq<string>, count: Option<int>): (cells: seq<Cell>)
    ensures |cells| == |columns|
    ensures forall k :: 0 <= k < |columns| && (count.None? || columns[k] != NeighborColumn) ==>
              cells[k] == Lookup(row, columns[k])
    ensures count.Some? ==> forall k :: 0 <= k < |columns| && columns[k] == NeighborColumn ==> cells[k] == Int(count.value)
  {
    seq(|columns|, k requires 0 <= k < |columns| =>
      if count.Some? && columns[k] == NeighborColumn then Int(count.value) else Lookup(row, columns[k]))
  }

  /** Only `n_neighbor` itself is shown under the header `n_neighbor`. */
  lemma OutputNameNeighbor(column: string)
    ensures OutputName(column) == NeighborColumn <==> column == NeighborColumn
  {
    if column == AbsDeltaDecLatColumn {
      assert OutputName(column)[0] != NeighborColumn[0];
    }
  }

  /** The first requested column the table does not have. */
  function FirstMissing(requested: seq<string>, columns: seq<string>): (r: Option<string>)
    ensures r.None? <==> forall k :: 0 <= k < |requested| ==> requested[k] in columns
    ensures r.Some? ==> r.value !in columns
    ensures r.Some? ==> exists k :: 0 <= k < |requested| && requested[k] == r.value
                                    && forall j :: 0 <= j < k ==> requested[j] in columns
  {
    if requested == [] then None
    else if requested[0] !in columns then Some(requested[0])
    else
      var r := FirstMissing(requested[1..], columns);
      assert forall k :: 1 <= k < |requested| ==> requested[k] == requested[1..][k - 1];
      assert r.Some? ==> exists k :: 1 <= k < |requested| && requested[k] == r.value
                                     && forall j :: 0 <= j < k ==> requested[j] in columns;
      r
  }
}
