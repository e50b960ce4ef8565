/** Vietoris-Rips filtration values, and why every pair is born before it dies. */
module Filtration {
  import opened Wrappers
  import opened Z2
  import opened Pairing
  import opened Sorting
  import opened Simplices
  import ColumnReduction
  import Boundary
  import ChainComplex

  // ---------- filtration values ----------

  ghost predicate NonNegative(c: Cloud) {
    forall i, j :: 0.0 <= c.dist(i, j)
  }

  /** v is the longest edge of s, 0 for a vertex. */
  ghost predicate IsLongestEdge(c: Cloud, s: Simplex, v: real) {
    && (forall i, j :: 0 <= i < j < |s| ==> c.dist(s[i], s[j]) <= v)
    && (if |s| <= 1 then v == 0.0 else exists i, j :: 0 <= i < j < |s| && v == c.dist(s[i], s[j]))
  }

  /** The nested loops that take the maximum over all vertex pairs, starting from 0. */
  method LongestEdge(c: Cloud, s: Simplex) returns (v: real)
    requires NonNegative(c) && |s| >= 1
    ensures IsLongestEdge(c, s, v)
  {
    v := 0.0;
    ghost var found := |s| <= 1;
    for i := 0 to |s|
      invariant forall x, y :: 0 <= x < i && x < y < |s| ==> c.dist(s[x], s[y]) <= v
      invariant v >= 0.0 && (v > 0.0 ==> exists x, y :: 0 <= x < y < |s| && v == c.dist(s[x], s[y]))
    {
      for j := i + 1 to |s|
        invariant forall x, y :: 0 <= x < i && x < y < |s| ==> c.dist(s[x], s[y]) <= v
        invariant forall y :: i < y < j ==> c.dist(s[i], s[y]) <= v
        invariant v >= 0.0 && (v > 0.0 ==> exists x, y :: 0 <= x < y < |s| && v == c.dist(s[x], s[y]))
      {
        if c.dist(s[i], s[j]) > v {
          v := c.dist(s[i], s[j]);
        }
      }
    }
    if |s| >= 2 && v == 0.0 {
      assert c.dist(s[0], s[1]) == v;
    }
  }

  ghost predicate Filtered(c: Cloud, list: seq<Simplex>, values: seq<real>) {
    |values| == |list| && forall k :: 0 <= k < |list| ==> IsLongestEdge(c, list[k], values[k])
  }

  method FiltrationValues(c: Cloud, levels: seq<seq<Simplex>>, maxDim: int) returns (values: seq<seq<real>>)
    requires NonNegative(c) && IsComplexUpTo(c, levels, maxDim)
    ensures |values| == |levels|
    ensures forall d :: 0 <= d < |levels| ==> Filtered(c, levels[d], values[d])
  {
    assert IsLevel(c, 0, levels[0]);
    ChainComplex.LevelIsProper(c, 0, levels[0]);
    values := [seq(|levels[0]|, _ => 0.0)];
    if |levels| > 1 {
      var edges := levels[1];
      assert IsLevel(c, 1, edges);
      ChainComplex.LevelIsProper(c, 1, edges);
      var lengths := seq(|edges|, k requires 0 <= k < |edges| && |edges[k]| == 2 => c.dist(edges[k][0], edges[k][1]));
      forall k | 0 <= k < |edges| ensures IsLongestEdge(c, edges[k], lengths[k]) {
        assert lengths[k] == c.dist(edges[k][0], edges[k][1]);
      }
      values := values + [lengths];
    }
    var d := 2;
    while d < |levels|
      invariant d >= 2 && |values| == if d <= |levels| then d else |levels|
      invariant forall e :: 0 <= e < |values| ==> Filtered(c, levels[e], values[e])
    {
      var list := levels[d];
      assert IsLevel(c, d, list);
      ChainComplex.LevelIsProper(c, d, list);
      var column: seq<real> := [];
      for k := 0 to |list|
        invariant |column| == k
        invariant forall x :: 0 <= x < k ==> IsLongestEdge(c, list[x], column[x])
      {
        var v := LongestEdge(c, list[k]);
        column := column + [v];
      }
      values := values + [column];
      d := d + 1;
    }
  }

  /** A face is never longer than the simplex. */
  lemma FaceIsShorter(c: Cloud, s: Simplex, i: nat, v: real, w: real)
    requires NonNegative(c) && i < |s| && |s| >= 2
    requires IsLongestEdge(c, s, v) && IsLongestEdge(c, Remove(s, i), w)
    ensures w <= v
  {
    var f := Remove(s, i);
    if |f| >= 2 {
      var x, y :| 0 <= x < y < |f| && w == c.dist(f[x], f[y]);
      EdgeOfFace(s, i, x, y);
      var x', y' :| 0 <= x' < y' < |s| && f[x] == s[x'] && f[y] == s[y'];
      assert c.dist(s[x'], s[y']) <= v;
    } else {
      assert 0.0 <= c.dist(s[0], s[1]) <= v;
    }
  }

  lemma EdgeOfFace(s: Simplex, i: nat, x: nat, y: nat)
    requires i < |s| && x < y < |s| - 1
    ensures exists x', y' :: 0 <= x' < y' < |s| && Remove(s, i)[x] == s[x'] && Remove(s, i)[y] == s[y']
  {
    var x' := if x < i then x else x + 1;
    var y' := if y < i then y else y + 1;
    assert Remove(s, i)[x] == s[x'] && Remove(s, i)[y] == s[y'];
  }

  // ---------- sorting by filtration value ----------

  /** Ascending values, equal values in their original order. */
  ghost predicate IsStableArgsort(order: seq<nat>, keys: seq<real>) {
    && IsArgsort(order, keys)
    && forall k, l :: 0 <= k < l < |order| && keys[order[k]] == keys[order[l]] ==> order[k] < order[l]
  }

  method SortFiltration(simplices: seq<Simplex>, values: seq<real>)
    returns (r: Result<(seq<nat>, seq<Simplex>, seq<real>)>)
    ensures |simplices| != |values| ==> r == Failure(LengthMismatch)
    ensures |simplices| == |values| ==>
              && r.Success?
              && var (order, sorted, ascending) := r.value;
                 && IsStableArgsort(order, values) && |sorted| == |ascending| == |order|
                 && forall k :: 0 <= k < |order| ==>
                   sorted[k] == simplices[order[k]] && ascending[k] == values[order[k]]
  {
    if |simplices| != |values| { return Failure(LengthMismatch); }
    var order := StableArgsort(values);
    var sorted := seq(|order|, k requires 0 <= k < |order| && order[k] < |simplices| => simplices[order[k]]);
    var ascending := seq(|order|, k requires 0 <= k < |order| && order[k] < |values| => values[order[k]]);
    r := Success((order, sorted, ascending));
  }

  method StableArgsort(keys: seq<real>) returns (order: seq<nat>)
    ensures IsStableArgsort(order, keys)
  {
    var ids := Iota(|keys|);
    var key := (i: nat) => if i < |keys| then keys[i] else 0.0;
    var le := (i: nat, j: nat) => key(i) < key(j) || (key(i) == key(j) && i <= j);
    order := Sort(ids, le);
    RearrangedIota(order, |keys|);
    forall k, l | 0 <= k < l < |order|
      ensures keys[order[k]] < keys[order[l]] || (keys[order[k]] == keys[order[l]] && order[k] < order[l])
    {
      assert le(order[k], order[l]);
    }
  }

  // ---------- birth before death ----------

  /** Every row of a column that has a value is at most as late as the column. */
  ghost predicate RowsEarlier(d: seq<Col>, birth: nat -> real, death: seq<real>) {
    forall j, r :: 0 <= j < |d| && j < |death| && r in d[j] ==> birth(r) <= death[j]
  }

  ghost predicate Ordered(d: seq<Col>, birth: nat -> real, death: seq<real>) {
    RowsEarlier(d, birth, death) && forall i, j :: 0 <= i < j < |death| ==> death[i] <= death[j]
  }

  lemma {:induction false} CombEarlier(d: seq<Col>, birth: nat -> real, bound: real, comb: set<nat>)
    requires forall j, r :: 0 <= j < |d| && r in d[j] ==> birth(r) <= bound
    ensures forall r :: r in Comb(d, comb) ==> birth(r) <= bound
  {
    if d != [] { CombEarlier(d[..|d| - 1], birth, bound, comb); }
  }

  /** Whatever left-to-right additions make of column j, its rows are no later than column j. */
  lemma BirthBeforeDeath(d: seq<Col>, birth: nat -> real, death: seq<real>, pivots: seq<int>, j: nat)
    requires Ordered(d, birth, death) && PivotVector(d, pivots)
    requires j < |d| && j < |death| && pivots[j] >= 0
    ensures birth(pivots[j]) <= death[j]
  {
    assert IsPivot(d, j, pivots[j]);
    var v :| InCoset(d, j, v) && Low(v) == pivots[j];
    var comb :| v == Xor(d[j], Comb(d[..j], comb));
    forall k, r | 0 <= k < j && r in d[..j][k] ensures birth(r) <= death[j] {
      assert death[k] <= death[j];
    }
    CombEarlier(d[..j], birth, death[j], comb);
  }

  /** Every pair the sparse reduction reports has birth <= death. */
  lemma {:induction false} PairsOrdered(d: seq<Col>, rowValues: Option<seq<real>>, colValues: seq<real>,
      pivots: seq<int>, n: nat)
    requires Ordered(d, (r: nat) => ColumnReduction.BirthOf(rowValues, r), colValues)
    requires PivotVector(d, pivots) && n <= |pivots|
    ensures forall p :: p in ColumnReduction.PairsOf(pivots, n, colValues, rowValues) ==> p.birth <= p.death
  {
    if n > 0 {
      PairsOrdered(d, rowValues, colValues, pivots, n - 1);
      if pivots[n - 1] >= 0 && n - 1 < |colValues| {
        BirthBeforeDeath(d, (r: nat) => ColumnReduction.BirthOf(rowValues, r), colValues, pivots, n - 1);
      }
    }
  }

  /** The columns of dimension d of the complex, in any order of ascending filtration value. */
  ghost function OrderedColumns(levels: seq<seq<Simplex>>, d: nat, order: seq<nat>): (cols: seq<Col>)
    requires 0 < d < |levels| && forall k :: 0 <= k < |order| ==> order[k] < |levels[d]|
  {
    seq(|order|, k requires 0 <= k < |order| => Boundary.FaceRows(levels[d - 1], levels[d][order[k]]))
  }

  ghost function OrderedValues(values: seq<real>, order: seq<nat>): (vs: seq<real>)
    requires forall k :: 0 <= k < |order| ==> order[k] < |values|
  {
    seq(|order|, k requires 0 <= k < |order| => values[order[k]])
  }

  /** In a Vietoris-Rips filtration every reported pair has birth <= death. */
  lemma VietorisRipsPairs(c: Cloud, levels: seq<seq<Simplex>>, maxDim: int, d: nat, lower: seq<real>,
      higher: seq<real>, order: seq<nat>, pivots: seq<int>)
    requires NonNegative(c) && IsComplexUpTo(c, levels, maxDim) && 0 < d < |levels|
    requires Filtered(c, levels[d - 1], lower) && Filtered(c, levels[d], higher) && IsArgsort(order, higher)
    requires PivotVector(OrderedColumns(levels, d, order), pivots)
    ensures forall p :: p in ColumnReduction.PairsOf(pivots, |pivots|, OrderedValues(higher, order), Some(lower)) ==>
              p.birth <= p.death
  {
    var cols, deaths := OrderedColumns(levels, d, order), OrderedValues(higher, order);
    forall k, r | 0 <= k < |cols| && r in cols[k] ensures ColumnReduction.BirthOf(Some(lower), r) <= deaths[k] {
      RowIsEarlier(c, levels, maxDim, d, lower, higher, order[k], r);
    }
    PairsOrdered(cols, Some(lower), deaths, pivots, |pivots|);
  }

  lemma RowIsEarlier(c: Cloud, levels: seq<seq<Simplex>>, maxDim: int, d: nat, lower: seq<real>,
      higher: seq<real>, j: nat, r: nat)
    requires NonNegative(c) && IsComplexUpTo(c, levels, maxDim) && 0 < d < |levels| && j < |levels[d]|
    requires Filtered(c, levels[d - 1], lower) && Filtered(c, levels[d], higher)
    requires r in Boundary.FaceRows(levels[d - 1], levels[d][j])
    ensures r < |lower| && lower[r] <= higher[j]
  {
    var s := levels[d][j];
    assert IsLevel(c, d, levels[d]);
    ChainComplex.LevelIsProper(c, d, levels[d]);
    Boundary.IncidenceUnit(levels[d - 1][r], s, |s|);
    var i :| 0 <= i < |s| && Remove(s, i) == levels[d - 1][r];
    FaceIsShorter(c, s, i, higher[j], lower[r]);
  }

  // ---------- when the order is needed ----------

  /** Rows are no later than their own column, with the birth values the code picks. */
  ghost predicate RowsFit(d: seq<Col>, rowValues: Option<seq<real>>, death: seq<real>) {
    RowsEarlier(d, (r: nat) => ColumnReduction.BirthOf(rowValues, r), death)
  }

  /** Every reported pair is born no later than it dies. */
  ghost predicate ReportedInOrder(d: seq<Col>, rowValues: Option<seq<real>>, death: seq<real>) {
    forall p :: p in ColumnReduction.PairsOf(Pivots(d), |d|, death, rowValues) ==> p.birth <= p.death
  }

  lemma {:induction false} PairReported(pivots: seq<int>, n: nat, j: nat, death: seq<real>,
      rowValues: Option<seq<real>>)
    requires j < n <= |pivots| && pivots[j] >= 0
    ensures var birth := ColumnReduction.BirthOf(rowValues, pivots[j]);
            ColumnReduction.Pair(pivots[j], j, birth, ColumnReduction.DeathOf(death, j, birth))
              in ColumnReduction.PairsOf(pivots, n, death, rowValues)
  {
    if j < n - 1 { PairReported(pivots, n - 1, j, death, rowValues); }
  }

  /** Column j meets column i in row 1, and takes over its row 0. */
  ghost function Inheriting(n: nat, i: nat, j: nat): (d: seq<Col>) {
    seq(n, k => if k == i then {0, 1} else if k == j then {1} else {})
  }

  lemma InheritedPivot(n: nat, i: nat, j: nat)
    requires i < j < n
    ensures Pivots(Inheriting(n, i, j))[j] == 0
  {
    var d := Inheriting(n, i, j);
    var r := d[j := {0}];
    forall k: nat | k < n ensures InCoset(d, k, r[k]) {
      CosetRefl(d, k);
      if k == j {
        CosetRefl(d, i);
        CosetAdd(d, j, d[j], i, d[i]);
        assert Xor(d[j], d[i]) == {0};
      }
    }
    ReducedIffMinimal(d, r);
    PivotVectorUnique(d, Lows(r), Pivots(d));
  }

  lemma InheritingFits(death: seq<real>, i: nat, j: nat)
    requires i < j < |death| && death[i] > death[j]
    ensures RowsFit(Inheriting(|death|, i, j), Some([death[i], death[j]]), death)
  {
  }

  /** Where the column values descend, two columns and two row values report a pair that dies
      before its birth. */
  lemma DescentReported(death: seq<real>, i: nat, j: nat)
    requires i < j < |death| && death[i] > death[j]
    ensures var d := Inheriting(|death|, i, j); var rows := Some([death[i], death[j]]);
            RowsFit(d, rows, death)
            && ColumnReduction.Pair(0, j, death[i], death[j]) in ColumnReduction.PairsOf(Pivots(d), |d|, death, rows)
  {
    hide Pivots, PivotVector, ColumnReduction.PairsOf, RowsFit;
    InheritingFits(death, i, j);
    InheritedPivot(|death|, i, j);
    var d := Inheriting(|death|, i, j);
    PairReported(Pivots(d), |d|, j, death, Some([death[i], death[j]]));
  }

  /** Exactly which column values put every reported birth before its death, whatever the matrix
      and the row values, once rows are no later than their own column: the ascending ones. */
  lemma BornFirstIffAscending(death: seq<real>)
    ensures (forall d: seq<Col>, rowValues: Option<seq<real>> ::
               RowsFit(d, rowValues, death) ==> ReportedInOrder(d, rowValues, death))
       <==> (forall i, j :: 0 <= i < j < |death| ==> death[i] <= death[j])
  {
    if i: nat, j: nat :| i < j < |death| && death[i] > death[j] {
      DescentReported(death, i, j);
      var d, rows := Inheriting(|death|, i, j), Some([death[i], death[j]]);
      assert RowsFit(d, rows, death) && !ReportedInOrder(d, rows, death);
    } else {
      forall d: seq<Col>, rowValues: Option<seq<real>> | RowsFit(d, rowValues, death)
        ensures ReportedInOrder(d, rowValues, death)
      {
        PairsOrdered(d, rowValues, death, Pivots(d), |d|);
      }
    }
  }
}
