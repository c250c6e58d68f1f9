/**
 * The neighbor counter: how many bright catalog stars share the square field of
 * view centred on a sky position, not counting one of them, which is taken to be
 * the target itself.
 */
module Neighbors {

  /** A row of the neighbor catalog: position in degrees and V magnitude. */
  datatype Star = Star(ra: real, dec: real, vmag: real)

  /** Half-width of the field in degrees for a field diameter in arc-minutes. */
  function FieldRadius(diameter: real): (r: real)
    ensures r * 120.0 == diameter
    ensures diameter > 0.0 ==> r > 0.0
  {
    diameter / 2.0 / 60.0
  }

  /** Strictly inside the square `(ra ± radius, dec ± radius)`. */
  predicate InField(s: Star, ra: real, dec: real, radius: real) {
    && ra - radius < s.ra < ra + radius
    && dec - radius < s.dec < dec + radius
  }

  /** A star the count takes: inside the field and strictly brighter than the cut. */
  predicate Selected(s: Star, ra: real, dec: real, radius: real, vCut: real) {
    InField(s, ra, dec, radius) && s.vmag < vCut
  }

  /** Number of catalog rows the selection mask keeps. */
  function CountSelected(catalog: seq<Star>, ra: real, dec: real, radius: real, vCut: real): (c: nat)
    ensures c <= |catalog|
  {
    if catalog == [] then 0
    else
      var last := catalog[|catalog| - 1];
      CountSelected(catalog[..|catalog| - 1], ra, dec, radius, vCut)
        + (if Selected(last, ra, dec, radius, vCut) then 1 else 0)
  }

  /** Positions of the rows the selection mask keeps. */
  ghost function SelectedRows(catalog: seq<Star>, ra: real, dec: real, radius: real, vCut: real): set<int> {
    set i | 0 <= i < |catalog| && Selected(catalog[i], ra, dec, radius, vCut)
  }

  /**
   * `get_neighbors`: the number of selected rows minus one when at least two
   * are selected, and zero otherwise.
   */
  function GetNeighbors(ra: real, dec: real, diameter: real, vCut: real, catalog: seq<Star>): (k: nat)
    ensures k > 0 ==> k < |catalog|
  {
    var c := CountSelected(catalog, ra, dec, FieldRadius(diameter), vCut);
    if c >= 2 then c - 1 else 0
  }

  /** `partial(get_neighbors, diameter=…, v_cut=…, catalog=…)`. */
  function NeighborGetter(diameter: real, vCut: real, catalog: seq<Star>): (g: (real, real) -> int)
    ensures forall ra, dec :: 0 <= g(ra, dec) && (g(ra, dec) == 0 || g(ra, dec) < |catalog|)
  {
    (ra: real, dec: real) => GetNeighbors(ra, dec, diameter, vCut, catalog) as int
  }

  /** The count of the mask is the number of positions it keeps. */
  lemma {:induction false} CountIsCardinality(catalog: seq<Star>, ra: real, dec: real, radius: real, vCut: real)
    ensures CountSelected(catalog, ra, dec, radius, vCut) == |SelectedRows(catalog, ra, dec, radius, vCut)|
  {
    if catalog != [] {
      var n := |catalog| - 1;
      var init := catalog[..n];
      CountIsCardinality(init, ra, dec, radius, vCut);
      var s, t := SelectedRows(init, ra, dec, radius, vCut), SelectedRows(catalog, ra, dec, radius, vCut);
      if Selected(catalog[n], ra, dec, radius, vCut) {
        assert t == s + {n};
        assert n !in s;
      } else {
        assert t == s;
      }
    }
  }

  /** Counting a catalog made of two parts adds the counts of the parts. */
  lemma {:induction false} CountAppend(a: seq<Star>, b: seq<Star>, ra: real, dec: real, radius: real, vCut: real)
    ensures CountSelected(a + b, ra, dec, radius, vCut)
         == CountSelected(a, ra, dec, radius, vCut) + CountSelected(b, ra, dec, radius, vCut)
  {
    if b != [] {
      var n := |b| - 1;
      CountAppend(a, b[..n], ra, dec, radius, vCut);
      assert (a + b)[..|a + b| - 1] == a + b[..n];
    } else {
      assert a + b == a;
    }
  }

  /**
   * The result is the number of selected rows other than one, and is non-zero
   * exactly when two different rows are selected.
   */
  lemma NeighborsAreOtherSelectedRows(ra: real, dec: real, diameter: real, vCut: real, catalog: seq<Star>)
    ensures var sel := SelectedRows(catalog, ra, dec, FieldRadius(diameter), vCut);
            GetNeighbors(ra, dec, diameter, vCut, catalog) == if |sel| >= 2 then |sel| - 1 else 0
    ensures GetNeighbors(ra, dec, diameter, vCut, catalog) > 0 <==>
            exists i, j :: 0 <= i < j < |catalog|
                           && Selected(catalog[i], ra, dec, FieldRadius(diameter), vCut)
                           && Selected(catalog[j], ra, dec, FieldRadius(diameter), vCut)
  {
    var r := FieldRadius(diameter);
    var sel := SelectedRows(catalog, ra, dec, r, vCut);
    CountIsCardinality(catalog, ra, dec, r, vCut);
    if |sel| >= 2 {
      var i :| i in sel;
      assert |sel - {i}| == |sel| - 1;
      var j :| j in sel - {i};
      if i < j {
        assert 0 <= i < j < |catalog|;
      } else {
        assert 0 <= j < i < |catalog|;
      }
    }
    if exists i, j :: 0 <= i < j < |catalog| && Selected(catalog[i], ra, dec, r, vCut) && Selected(catalog[j], ra, dec, r, vCut) {
      var i, j :| 0 <= i < j < |catalog| && Selected(catalog[i], ra, dec, r, vCut) && Selected(catalog[j], ra, dec, r, vCut);
      assert {i, j} <= sel;
      assert |{i, j}| == 2;
      SubsetCardinality({i, j}, sel);
    }
  }

  lemma SubsetCardinality(a: set<int>, b: set<int>)
    requires a <= b
    ensures |a| <= |b|
  {
    assert b == a + (b - a);
  }

  /**
   * A star on an edge of the field, or exactly as bright as the cut, is not
   * counted: adding it to the catalog does not change the result.
   */
  lemma BoundaryStarNotCounted(ra: real, dec: real, diameter: real, vCut: real, catalog: seq<Star>, s: Star)
    requires var r := FieldRadius(diameter);
             || s.vmag == vCut
             || s.ra == ra - r || s.ra == ra + r
             || s.dec == dec - r || s.dec == dec + r
    ensures GetNeighbors(ra, dec, diameter, vCut, catalog + [s]) == GetNeighbors(ra, dec, diameter, vCut, catalog)
  {
    var r := FieldRadius(diameter);
    assert !Selected(s, ra, dec, r, vCut);
    assert (catalog + [s])[..|catalog|] == catalog;
  }

  /**
   * With the target and one more bright star in the field the result is 1;
   * with the target alone it is 0.
   */
  lemma OneNeighborExample(ra: real, dec: real, diameter: real, vCut: real, target: Star, other: Star)
    requires Selected(target, ra, dec, FieldRadius(diameter), vCut)
    requires Selected(other, ra, dec, FieldRadius(diameter), vCut)
    ensures GetNeighbors(ra, dec, diameter, vCut, [target, other]) == 1
    ensures GetNeighbors(ra, dec, diameter, vCut, [target]) == 0
  {
    var r := FieldRadius(diameter);
    assert [target, other][..1] == [target];
    assert [target][..0] == [];
    assert CountSelected([target], ra, dec, r, vCut) == 1;
    assert CountSelected([target, other], ra, dec, r, vCut) == 2;
  }
}
