/**
 * Candidate tables as the ranker sees them: one record per catalog row, the
 * four columns the ranker derives from a row's position, and lookup of a cell
 * by column name.
 */
module Table {
  import CivilDate

  /** A cell of a table; `Missing` is an empty (NaN) cell. */
  datatype Cell = Num(x: real) | Int(i: int) | Text(s: string) | Missing

  /**
   * A candidate row: its name, its position in degrees and its other columns (magnitude, period, amplitude, star count, ...). A column the
   * table has but `attrs` lacks is an empty cell in this row.
   */
  datatype Target = Target(name: string, ra: real, dec: real, attrs: map<string, Cell>)

  /** What the ranking of one call depends on besides the row. */
  datatype RankParams = RankParams(sunRA: real, latitude: real, deltaToSun: real)

  /** The four derived columns of a row. */
  datatype Rank = Rank(deltaSunRA: real, absDeltaSunRA: real, bin: int, absDeltaDecLat: real)

  /** A row of the ranked table: the catalog row with its derived columns. */
  datatype Row = Row(target: Target, rank: Rank)

  const NameColumn := "name"
  const RAColumn := "RA"
  const DECColumn := "DEC"
  const DeltaSunRAColumn := "delta_sun_RA"
  const AbsDeltaSunRAColumn := "abs_delta_sun_RA"
  const BinColumn := "abs_delta_sun_RA_floor"
  const AbsDeltaDecLatColumn := "abs_delta_dec_lat"

  /** The columns every candidate table has. */
  const BaseColumns := [NameColumn, RAColumn, DECColumn]

  /** The columns ranking adds, in the order it adds them. */
  const DerivedColumns := [DeltaSunRAColumn, AbsDeltaSunRAColumn, BinColumn, AbsDeltaDecLatColumn]

  function Abs(x: real): (a: real)
    ensures a >= 0.0 && (a == x || a == -x)
  {
    if x < 0.0 then -x else x
  }

  /**
   * Right ascension of the Sun, in degrees, `offset` days after March 20: a full
   * turn every 365 days, zero on March 20.
   */
  function SunRA(offset: int): (ra: real)
    ensures ra * 365.0 == offset as real * 360.0
    ensures offset == 0 <==> ra == 0.0
  {
    offset as real * (360.0 / 365.0)
  }

  /** The ranking parameters of an observation date, a latitude and a desired Sun offset. */
  function ParamsFor(date: CivilDate.Date, latitude: real, deltaToSun: real): (p: RankParams)
    requires CivilDate.ValidDate(date)
    ensures p.latitude == latitude && p.deltaToSun == deltaToSun
    ensures p.sunRA * 365.0 == CivilDate.DayOffset(date) as real * 360.0
    ensures p.sunRA == 0.0 <==> date.month == CivilDate.EquinoxMonth && date.day == CivilDate.EquinoxDay
  {
    RankParams(SunRA(CivilDate.DayOffset(date)), latitude, deltaToSun)
  }

  /**
   * The derived columns of a row: hours from the Sun, their absolute value, the
   * integer bin of the distance to the desired offset, and the distance in
   * degrees from the declination to the latitude.
   */
  function RankOf(t: Target, p: RankParams): (r: Rank)
    ensures r.deltaSunRA * 15.0 == t.ra - p.sunRA
    ensures r.absDeltaSunRA >= 0.0 && (r.absDeltaSunRA == r.deltaSunRA || r.absDeltaSunRA == -r.deltaSunRA)
    ensures r.bin >= 0
    ensures r.bin as real <= Abs(r.absDeltaSunRA - p.deltaToSun) < r.bin as real + 1.0
    ensures r.absDeltaDecLat >= 0.0
    ensures r.absDeltaDecLat == t.dec - p.latitude || r.absDeltaDecLat == p.latitude - t.dec
  {
    var delta := (t.ra - p.sunRA) / 15.0;
    var absDelta := Abs(delta);
    Rank(delta, absDelta, Abs(absDelta - p.deltaToSun).Floor, Abs(t.dec - p.latitude))
  }

  /** The rows of a table after ranking with `p`, in table order. */
  function Ranked(ts: seq<Target>, p: RankParams): (rows: seq<Row>)
    ensures |rows| == |ts|
    ensures forall i :: 0 <= i < |ts| ==> rows[i] == Row(ts[i], RankOf(ts[i], p))
  {
    if ts == [] then [] else Ranked(ts[..|ts| - 1], p) + [Row(ts[|ts| - 1], RankOf(ts[|ts| - 1], p))]
  }

  /** The catalog rows of a ranked table, without their derived columns. */
  function Targets(rows: seq<Row>): (ts: seq<Target>)
    ensures |ts| == |rows|
    ensures forall i :: 0 <= i < |rows| ==> ts[i] == rows[i].target
  {
    if rows == [] then [] else Targets(rows[..|rows| - 1]) + [rows[|rows| - 1].target]
  }

  /** Every row carries the derived columns of its catalog row for the parameters `p`. */
  predicate RankedWith(rows: seq<Row>, p: RankParams) {
    forall i :: 0 <= i < |rows| ==> rows[i].rank == RankOf(rows[i].target, p)
  }

  /** Ranking is undone by dropping the derived columns, and redone from the catalog rows. */
  lemma RankedTargets(rows: seq<Row>, p: RankParams)
    ensures RankedWith(rows, p) <==> Ranked(Targets(rows), p) == rows
  {
    if RankedWith(rows, p) {
      assert forall i :: 0 <= i < |rows| ==> Ranked(Targets(rows), p)[i] == rows[i];
    }
  }

  lemma TargetsOfRanked(ts: seq<Target>, p: RankParams)
    ensures Targets(Ranked(ts, p)) == ts
  {
    assert forall i :: 0 <= i < |ts| ==> Targets(Ranked(ts, p))[i] == ts[i];
  }

  /** The column names of a ranked table with the given other columns. */
  function Columns(attrColumns: seq<string>): seq<string> {
    BaseColumns + attrColumns + DerivedColumns
  }

  /** The cell of a row in a column. */
  function Lookup(row: Row, column: string): Cell {
    if column == NameColumn then Text(row.target.name)
    else if column == RAColumn then Num(row.target.ra)
    else if column == DECColumn then Num(row.target.dec)
    else if column == DeltaSunRAColumn then Num(row.rank.deltaSunRA)
    else if column == AbsDeltaSunRAColumn then Num(row.rank.absDeltaSunRA)
    else if column == BinColumn then Int(row.rank.bin)
    else if column == AbsDeltaDecLatColumn then Num(row.rank.absDeltaDecLat)
    else if column in row.target.attrs then row.target.attrs[column]
    else Missing
  }

  /**
   * The name, position and derived columns each show the row's own value; every
   * other column shows the row's cell, or an empty cell when the row has none.
   */
  lemma LookupColumns(row: Row, column: string)
    ensures Lookup(row, NameColumn) == Text(row.target.name)
    ensures Lookup(row, RAColumn) == Num(row.target.ra) && Lookup(row, DECColumn) == Num(row.target.dec)
    ensures Lookup(row, DeltaSunRAColumn) == Num(row.rank.deltaSunRA)
    ensures Lookup(row, AbsDeltaSunRAColumn) == Num(row.rank.absDeltaSunRA)
    ensures Lookup(row, BinColumn) == Int(row.rank.bin)
    ensures Lookup(row, AbsDeltaDecLatColumn) == Num(row.rank.absDeltaDecLat)
    ensures column !in BaseColumns + DerivedColumns ==>
              Lookup(row, column) == if column in row.target.attrs then row.target.attrs[column] else Missing
  {
  }

  /**
   * On March 20 the Sun's right ascension is zero, so a row at RA 180 is twelve
   * hours from the Sun.
   */
  lemma EquinoxExample(t: Target, latitude: real, deltaToSun: real)
    requires t.ra == 180.0
    ensures ParamsFor(CivilDate.Date(2022, 3, 20), latitude, deltaToSun).sunRA == 0.0
    ensures RankOf(t, ParamsFor(CivilDate.Date(2022, 3, 20), latitude, deltaToSun)).deltaSunRA == 12.0
  {
  }

  // ---------------------------------------------------------------------------
  // Subsequences

  /** `a` is `b` with some elements left out: `idx` gives, in increasing order, where each element of `a` sits in `b`. */
  ghost predicate SubsequenceAt<T>(a: seq<T>, b: seq<T>, idx: seq<int>) {
    && |idx| == |a|
    && (forall k :: 0 <= k < |idx| ==> 0 <= idx[k] < |b| && a[k] == b[idx[k]])
    && (forall k, l :: 0 <= k < l < |idx| ==> idx[k] < idx[l])
  }

  ghost predicate IsSubsequence<T>(a: seq<T>, b: seq<T>) {
    exists idx :: SubsequenceAt(a, b, idx)
  }

  lemma SubsequenceTrans<T>(a: seq<T>, b: seq<T>, c: seq<T>)
    requires IsSubsequence(a, b) && IsSubsequence(b, c)
    ensures IsSubsequence(a, c)
  {
    var i :| SubsequenceAt(a, b, i);
    var j :| SubsequenceAt(b, c, j);
    var k := seq(|i|, n requires 0 <= n < |i| => j[i[n]]);
    assert SubsequenceAt(a, c, k);
  }

  lemma PrefixIsSubsequence<T>(a: seq<T>, m: nat)
    requires m <= |a|
    ensures IsSubsequence(a[..m], a)
  {
    var idx := seq(m, k => k);
    assert SubsequenceAt(a[..m], a, idx);
  }
}
