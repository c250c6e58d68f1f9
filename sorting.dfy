/**
 * The rank order of ranked rows: ascending by bin, then by the distance from
 * the declination to the latitude, rows with equal keys keeping their table
 * order (a stable sort, as `sort_values` on several keys is).
 */
module Sorting {
  import opened Table

  /** `a` comes no later than `b`: lexicographic order on (bin, dec-lat distance). */
  predicate KeyLe(a: Rank, b: Rank) {
    a.bin < b.bin || (a.bin == b.bin && a.absDeltaDecLat <= b.absDeltaDecLat)
  }

  predicate SameKey(a: Rank, b: Rank) {
    a.bin == b.bin && a.absDeltaDecLat == b.absDeltaDecLat
  }

  /** Ranked rows in rank order. */
  predicate RowsSorted(rows: seq<Row>) {
    forall i, j :: 0 <= i < j < |rows| ==> KeyLe(rows[i].rank, rows[j].rank)
  }

  /** The rows of `rows` whose key is the same as `k`, in their order in `rows`. */
  function WithKey(rows: seq<Row>, k: Rank): seq<Row> {
    if rows == [] then []
    else WithKey(rows[..|rows| - 1], k) + (if SameKey(rows[|rows| - 1].rank, k) then [rows[|rows| - 1]] else [])
  }

  /** Puts `x` after every row of `s` whose key is not greater than its own. */
  function Insert(s: seq<Row>, x: Row): (r: seq<Row>)
    ensures |r| == |s| + 1
  {
    if s == [] || KeyLe(s[|s| - 1].rank, x.rank) then s + [x]
    else Insert(s[..|s| - 1], x) + [s[|s| - 1]]
  }

  /** `sort_values(by=[bin, dec-lat distance])`. */
  function SortRows(rows: seq<Row>): (r: seq<Row>)
    ensures |r| == |rows|
  {
    if rows == [] then []
    else Insert(SortRows(rows[..|rows| - 1]), rows[|rows| - 1])
  }

  lemma {:induction false} InsertPermutes(s: seq<Row>, x: Row)
    ensures multiset(Insert(s, x)) == multiset(s) + multiset{x}
  {
    if s == [] || KeyLe(s[|s| - 1].rank, x.rank) {
    } else {
      var n := |s| - 1;
      InsertPermutes(s[..n], x);
      assert s == s[..n] + [s[n]];
    }
  }

  /** Every row of `s` has a key no greater than `b`. */
  predicate AllAtMost(s: seq<Row>, b: Rank) {
    forall i :: 0 <= i < |s| ==> KeyLe(s[i].rank, b)
  }

  lemma {:induction false} InsertAtMost(s: seq<Row>, x: Row, b: Rank)
    requires AllAtMost(s, b) && KeyLe(x.rank, b)
    ensures AllAtMost(Insert(s, x), b)
  {
    if s == [] || KeyLe(s[|s| - 1].rank, x.rank) {
    } else {
      InsertAtMost(s[..|s| - 1], x, b);
    }
  }

  lemma {:induction false} InsertSorted(s: seq<Row>, x: Row)
    requires RowsSorted(s)
    ensures RowsSorted(Insert(s, x))
  {
    if s == [] || KeyLe(s[|s| - 1].rank, x.rank) {
    } else {
      var n := |s| - 1;
      InsertSorted(s[..n], x);
      InsertAtMost(s[..n], x, s[n].rank);
    }
  }

  /** The sort returns every row exactly as often as the table has it. */
  lemma {:induction false} SortPermutes(rows: seq<Row>)
    ensures multiset(SortRows(rows)) == multiset(rows)
  {
    if rows != [] {
      var n := |rows| - 1;
      SortPermutes(rows[..n]);
      InsertPermutes(SortRows(rows[..n]), rows[n]);
      assert rows == rows[..n] + [rows[n]];
    }
  }

  /** The sort puts the rows in rank order. */
  lemma {:induction false} SortSorted(rows: seq<Row>)
    ensures RowsSorted(SortRows(rows))
  {
    if rows != [] {
      var n := |rows| - 1;
      SortSorted(rows[..n]);
      InsertSorted(SortRows(rows[..n]), rows[n]);
    }
  }

  lemma WithKeyAppend(s: seq<Row>, y: Row, k: Rank)
    ensures WithKey(s + [y], k) == WithKey(s, k) + (if SameKey(y.rank, k) then [y] else [])
  {
    assert (s + [y])[..|s|] == s;
  }

  /** Two rows out of key order cannot both have the key `k`. */
  lemma OutOfOrderKeys(a: Rank, b: Rank, k: Rank)
    requires !KeyLe(a, b)
    ensures !(SameKey(a, k) && SameKey(b, k))
  {
  }

  lemma {:induction false} InsertWithKey(s: seq<Row>, x: Row, k: Rank)
    ensures WithKey(Insert(s, x), k) == WithKey(s, k) + (if SameKey(x.rank, k) then [x] else [])
  {
    if s == [] || KeyLe(s[|s| - 1].rank, x.rank) {
      WithKeyAppend(s, x, k);
    } else {
      var n := |s| - 1;
      InsertWithKey(s[..n], x, k);
      WithKeyAppend(Insert(s[..n], x), s[n], k);
      OutOfOrderKeys(s[n].rank, x.rank, k);
    }
  }

  /**
   * The sort is stable: for every key, the rows with that key come out in the
   * order the table had them.
   */
  lemma {:induction false} SortStable(rows: seq<Row>, k: Rank)
    ensures WithKey(SortRows(rows), k) == WithKey(rows, k)
  {
    if rows != [] {
      var n := |rows| - 1;
      SortStable(rows[..n], k);
      InsertWithKey(SortRows(rows[..n]), rows[n], k);
    }
  }

  /**
   * Sorting rows already in rank order changes nothing, so sorting a second
   * time gives the same table.
   */
  lemma {:induction false} SortKeepsSorted(rows: seq<Row>)
    requires RowsSorted(rows)
    ensures SortRows(rows) == rows
  {
    if rows != [] {
      var n := |rows| - 1;
      var init := rows[..n];
      assert RowsSorted(init) by {
        forall i, j | 0 <= i < j < |init| ensures KeyLe(init[i].rank, init[j].rank) {
          assert init[i] == rows[i] && init[j] == rows[j];
        }
      }
      SortKeepsSorted(init);
      assert n > 0 ==> KeyLe(init[n - 1].rank, rows[n].rank) by {
        if n > 0 {
          assert init[n - 1] == rows[n - 1];
        }
      }
      assert Insert(init, rows[n]) == init + [rows[n]];
      assert init + [rows[n]] == rows;
    }
  }

  lemma SortIdempotent(rows: seq<Row>)
    ensures SortRows(SortRows(rows)) == SortRows(rows)
  {
    SortSorted(rows);
    SortKeepsSorted(SortRows(rows));
  }

  /** Every row the sort returns is a row of the table. */
  lemma SortMembers(rows: seq<Row>)
    ensures |SortRows(rows)| == |rows|
    ensures forall i :: 0 <= i < |SortRows(rows)| ==> SortRows(rows)[i] in rows
  {
    SortPermutes(rows);
    assert |SortRows(rows)| == |multiset(SortRows(rows))|;
    forall i | 0 <= i < |SortRows(rows)| ensures SortRows(rows)[i] in rows {
      assert SortRows(rows)[i] in multiset(SortRows(rows));
    }
  }

  /** Sorting rows that carry the derived columns of their catalog rows keeps it so. */
  lemma SortKeepsRanking(rows: seq<Row>, p: RankParams)
    requires RankedWith(rows, p)
    ensures RankedWith(SortRows(rows), p)
  {
    var sorted := SortRows(rows);
    SortMembers(rows);
    forall i | 0 <= i < |sorted| ensures sorted[i].rank == RankOf(sorted[i].target, p) {
      var j :| 0 <= j < |rows| && rows[j] == sorted[i];
    }
  }

  /**
   * Sorting the ranked table leaves every row with the derived columns of its
   * own catalog row, so ranking the sorted catalog rows again gives the sorted
   * table.
   */
  lemma SortedTableRanks(ts: seq<Target>, p: RankParams)
    ensures RankedWith(SortRows(Ranked(ts, p)), p)
    ensures Ranked(Targets(SortRows(Ranked(ts, p))), p) == SortRows(Ranked(ts, p))
  {
    SortKeepsRanking(Ranked(ts, p), p);
    RankedTargets(SortRows(Ranked(ts, p)), p);
  }
}
