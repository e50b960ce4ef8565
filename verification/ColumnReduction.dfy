/** The three column reductions. */
module ColumnReduction {
  // The eager one works in place on a dense 0/1 matrix and adds reduced columns; the two lazy ones
  // never write a reduced column back and add original columns.  Each finds the pivot vector of its
  // input.

  import opened Wrappers
  import opened Z2
  import opened Pairing
  import opened LazyTermination

  // ---------- bookkeeping shared by the three loops ----------

  /** row_owner[row] is the reduced column with that lowest row, -1 when there is none. */
  ghost predicate PivotTable(r: seq<Col>, rowOwner: seq<int>) {
    && (forall row :: 0 <= row < |rowOwner| ==>
          -1 <= rowOwner[row] < |r| && (rowOwner[row] >= 0 ==> Low(r[rowOwner[row]]) == row))
    && (forall c :: 0 <= c < |r| && r[c] != {} ==> Low(r[c]) < |rowOwner| && rowOwner[Low(r[c])] == c)
  }

  lemma TableDistinct(r: seq<Col>, rowOwner: seq<int>)
    requires PivotTable(r, rowOwner)
    ensures DistinctLows(r)
  {
    forall i, j | 0 <= i < j < |r| && r[i] != {} ensures Low(r[i]) != Low(r[j]) {
      assert rowOwner[Low(r[i])] == i;
      if r[j] != {} { assert rowOwner[Low(r[j])] == j; }
    }
  }

  /** A column that no table entry collides with may be appended. */
  lemma ExtendTable(r: seq<Col>, rowOwner: seq<int>, v: Col)
    requires PivotTable(r, rowOwner) && Low(v) < |rowOwner|
    requires v != {} ==> rowOwner[Low(v)] == -1
    ensures PivotTable(r + [v], if v == {} then rowOwner else rowOwner[Low(v) := |r|])
  {
    var table := if v == {} then rowOwner else rowOwner[Low(v) := |r|];
    forall c | 0 <= c < |r + [v]| && (r + [v])[c] != {}
      ensures Low((r + [v])[c]) < |table| && table[Low((r + [v])[c])] == c
    {
      if c < |r| { assert (r + [v])[c] == r[c]; }
    }
  }

  lemma ExtendAdditions(d: seq<Col>, r: seq<Col>, v: Col)
    requires Additions(d, r) && |r| < |d| && InCoset(d, |r|, v)
    ensures Additions(d, r + [v])
  {
  }

  // ---------- eager reduction, dense, in place ----------

  ghost function Column(m: array2<bool>, j: nat): (s: Col)
    requires j < m.Length1
    reads m
  {
    set i: nat | i < m.Length0 && m[i, j]
  }

  ghost function Columns(m: array2<bool>): (d: seq<Col>)
    reads m
  {
    seq(m.Length1, j requires 0 <= j < m.Length1 reads m => Column(m, j))
  }

  method LowestRow(m: array2<bool>, j: nat) returns (lowest: int)
    requires j < m.Length1
    ensures lowest == Low(Column(m, j))
  {
    lowest := -1;
    var i := m.Length0 - 1;
    while i >= 0
      invariant -1 <= i < m.Length0
      invariant lowest == -1
      invariant forall x :: x in Column(m, j) ==> x <= i
    {
      if m[i, j] {
        lowest := i;
        assert i in Column(m, j);
        break;
      }
      i := i - 1;
    }
  }

  method AddColumn(m: array2<bool>, j: nat, k: nat)
    requires j < m.Length1 && k < m.Length1 && j != k
    modifies m
    ensures Column(m, j) == Xor(old(Column(m, j)), old(Column(m, k)))
    ensures forall c: nat :: c < m.Length1 && c != j ==> Column(m, c) == old(Column(m, c))
  {
    for i := 0 to m.Length0
      invariant forall x, c :: 0 <= x < m.Length0 && 0 <= c < m.Length1 && (c != j || i <= x) ==>
                  m[x, c] == old(m[x, c])
      invariant forall x :: 0 <= x < i ==> m[x, j] == (old(m[x, j]) != old(m[x, k]))
    {
      m[i, j] := m[i, j] != m[i, k];
    }
  }

  /** The inner loop: add reduced columns to column j until its lowest row collides with none. */
  method ReduceColumn(m: array2<bool>, rowOwner: array<int>, j: nat, ghost d: seq<Col>, ghost r: seq<Col>)
    returns (lowest: int)
    requires |r| == j < m.Length1 == |d| && rowOwner.Length == m.Length0
    requires Additions(d, r) && PivotTable(r, rowOwner[..])
    requires forall c :: 0 <= c < j ==> Column(m, c) == r[c]
    requires Column(m, j) == d[j]
    modifies m
    ensures forall c: nat :: c < m.Length1 && c != j ==> Column(m, c) == old(Column(m, c))
    ensures InCoset(d, j, Column(m, j))
    ensures lowest == Low(Column(m, j)) < m.Length0
    ensures lowest >= 0 ==> rowOwner[lowest] == -1
  {
    lowest := LowestRow(m, j);
    CosetRefl(d, j);
    while lowest >= 0 && rowOwner[lowest] >= 0
      invariant lowest == Low(Column(m, j)) < m.Length0
      invariant forall c: nat :: c < m.Length1 && c != j ==> Column(m, c) == old(Column(m, c))
      invariant InCoset(d, j, Column(m, j))
      decreases lowest
    {
      var k := rowOwner[lowest];
      assert rowOwner[..][lowest] == k;
      CosetAdd(d, j, Column(m, j), k, r[k]);
      LowOfXor(Column(m, j), r[k]);
      AddColumn(m, j, k);
      lowest := LowestRow(m, j);
    }
    assert lowest >= 0 ==> rowOwner[lowest] == rowOwner[..][lowest];
  }

  /** Enter column j, now reduced to v, in both result arrays. */
  method RecordPivot(rowOwner: array<int>, pivots: array<int>, j: nat, lowest: int, ghost r: seq<Col>,
    ghost v: Col)
    requires rowOwner != pivots && |r| == j < pivots.Length
    requires PivotTable(r, rowOwner[..]) && lowest == Low(v) < rowOwner.Length
    requires lowest >= 0 ==> rowOwner[lowest] == -1
    requires pivots[..|r|] == Lows(r) && pivots[|r|] == -1
    modifies rowOwner, pivots
    ensures PivotTable(r + [v], rowOwner[..])
    ensures pivots[..|r| + 1] == Lows(r + [v])
    ensures forall c :: |r| < c < pivots.Length ==> pivots[c] == old(pivots[c])
  {
    ExtendTable(r, rowOwner[..], v);
    ghost var before := rowOwner[..];
    if lowest >= 0 {
      rowOwner[lowest] := j;
      pivots[j] := lowest;
      assert rowOwner[..] == before[lowest := j];
    }
  }

  method ReduceDense(m: array2<bool>) returns (pivots: array<int>)
    modifies m
    ensures fresh(pivots)
    ensures IsReduction(old(Columns(m)), Columns(m))
    ensures pivots[..] == Lows(Columns(m))
    ensures pivots[..] == Pivots(old(Columns(m)))
  {
    ghost var d := Columns(m);
    ghost var r: seq<Col> := [];
    var rowOwner := new int[m.Length0](_ => -1);
    pivots := new int[m.Length1](_ => -1);
    for j := 0 to m.Length1
      invariant |r| == j && Additions(d, r)
      invariant forall c: nat :: c < j ==> Column(m, c) == r[c]
      invariant forall c: nat :: j <= c < m.Length1 ==> Column(m, c) == d[c]
      invariant PivotTable(r, rowOwner[..])
      invariant pivots[..j] == Lows(r)
      invariant forall c :: j <= c < m.Length1 ==> pivots[c] == -1
    {
      hide PivotTable, Additions, DistinctLows, InCoset;
      var lowest := ReduceColumn(m, rowOwner, j, d, r);
      ghost var v := Column(m, j);
      ExtendAdditions(d, r, v);
      ghost var columns := Columns(m);
      RecordPivot(rowOwner, pivots, j, lowest, r, v);
      assert Columns(m) == columns;
      r := r + [v];
    }
    TableDistinct(r, rowOwner[..]);
    assert Columns(m) == r;
    assert pivots[..] == pivots[..m.Length1];
    ReducedIffMinimal(d, r);
    PivotVectorUnique(d, Lows(r), Pivots(d));
  }

  // ---------- lazy reduction, padded arrays of row lists ----------

  function Rows(column: seq<nat>): (s: Col)
    ensures forall x :: x in s <==> exists k :: 0 <= k < |column| && column[k] == x
  {
    set x | x in column
  }

  ghost function SparseColumns(columns: seq<seq<nat>>, lengths: seq<nat>): (d: seq<Col>)
    requires |lengths| == |columns|
    requires forall j :: 0 <= j < |columns| ==> lengths[j] <= |columns[j]|
    ensures |d| == |columns|
    ensures forall j, x :: 0 <= j < |columns| ==> (x in d[j] <==> x in columns[j][..lengths[j]])
  {
    seq(|columns|, j requires 0 <= j < |columns| => Rows(columns[j][..lengths[j]]))
  }

  /** max_row + 1, at least 1: the size of the pivot table. */
  method RowCount(columns: seq<seq<nat>>, lengths: seq<nat>) returns (size: nat)
    requires |lengths| == |columns|
    requires forall j :: 0 <= j < |columns| ==> lengths[j] <= |columns[j]|
    ensures size >= 1
    ensures forall j, x :: 0 <= j < |columns| && x in SparseColumns(columns, lengths)[j] ==> x < size
  {
    var maxRow: int := -1;
    for j := 0 to |columns|
      invariant maxRow >= -1
      invariant forall c, k :: 0 <= c < j && 0 <= k < lengths[c] ==> columns[c][k] <= maxRow
    {
      for k := 0 to lengths[j]
        invariant maxRow >= -1
        invariant forall c, k :: 0 <= c < j && 0 <= k < lengths[c] ==> columns[c][k] <= maxRow
        invariant forall x :: 0 <= x < k ==> columns[j][x] <= maxRow
      {
        var row := columns[j][k];
        if row > maxRow { maxRow := row; }
      }
    }
    size := if maxRow >= 0 then maxRow + 1 else 1;
  }

  /** The inner loop: add original pivot columns until the lowest row collides with none. */
  method LazyColumn(columns: seq<seq<nat>>, lengths: seq<nat>, rowOwner: array<int>, j: nat, ghost r: seq<Col>)
    returns (colSet: Col)
    requires |lengths| == |columns|
    requires forall j :: 0 <= j < |columns| ==> lengths[j] <= |columns[j]|
    requires |r| == j < |columns| && Additions(SparseColumns(columns, lengths), r)
    requires PivotTable(r, rowOwner[..])
    requires forall j, x :: 0 <= j < |columns| && x in SparseColumns(columns, lengths)[j] ==> x < rowOwner.Length
    ensures InCoset(SparseColumns(columns, lengths), j, colSet)
    ensures colSet != {} ==> Low(colSet) < rowOwner.Length && rowOwner[Low(colSet)] == -1
  {
    ghost var d := SparseColumns(columns, lengths);
    colSet := Rows(columns[j][..lengths[j]]);
    assert colSet == d[j];
    CosetRefl(d, j);
    TableDistinct(r, rowOwner[..]);
    while colSet != {}
      invariant InCoset(d, j, colSet)
      invariant forall x :: x in colSet ==> x < rowOwner.Length
      decreases Remaining(colSet, r, rowOwner.Length)
    {
      var lowest := Low(colSet);
      var k := rowOwner[lowest];
      assert rowOwner[..][lowest] == k;
      if k >= 0 {
        CosetRefl(d, k);
        CosetAdd(d, j, colSet, k, d[k]);
        LazyStepDecreases(d, r, colSet, k, rowOwner.Length);
        colSet := Xor(colSet, Rows(columns[k][..lengths[k]]));
      } else {
        break;
      }
    }
  }

  method ReduceSparse(columns: seq<seq<nat>>, lengths: seq<nat>) returns (pivots: array<int>)
    requires |lengths| == |columns|
    requires forall j :: 0 <= j < |columns| ==> lengths[j] <= |columns[j]|
    ensures fresh(pivots)
    ensures pivots[..] == Pivots(SparseColumns(columns, lengths))
  {
    ghost var d := SparseColumns(columns, lengths);
    ghost var r: seq<Col> := [];
    var size := RowCount(columns, lengths);
    var rowOwner := new int[size](_ => -1);
    pivots := new int[|columns|](_ => -1);
    for j := 0 to |columns|
      invariant |r| == j && Additions(d, r)
      invariant PivotTable(r, rowOwner[..])
      invariant pivots[..j] == Lows(r)
      invariant forall c :: j <= c < |columns| ==> pivots[c] == -1
    {
      var colSet := LazyColumn(columns, lengths, rowOwner, j, r);
      ExtendAdditions(d, r, colSet);
      RecordPivot(rowOwner, pivots, j, Low(colSet), r, colSet);
      r := r + [colSet];
    }
    TableDistinct(r, rowOwner[..]);
    assert pivots[..] == pivots[..|columns|];
    ReducedIffMinimal(d, r);
    PivotVectorUnique(d, Lows(r), Pivots(d));
  }

  // ---------- lazy reduction of a compressed sparse matrix, with birth and death values ----------

  /** The stored entries of a sparse matrix by column; a stored entry may be zero, and signs do
      not matter to the reduction. */
  datatype Csc = Csc(cols: seq<map<nat, int>>) {
    function Nonzero(j: nat): (s: Col)
      requires j < |cols|
      ensures forall r :: r in s <==> r in cols[j] && cols[j][r] != 0
    {
      set r | r in cols[j] && cols[j][r] != 0
    }

    ghost function Columns(): (d: seq<Col>) {
      seq(|cols|, j requires 0 <= j < |cols| => Nonzero(j))
    }
  }

  datatype Pair = Pair(row: nat, col: nat, birth: real, death: real)

  function BirthOf(rowValues: Option<seq<real>>, row: nat): real {
    if rowValues.Some? && row < |rowValues.value| then rowValues.value[row] else 0.0
  }

  function DeathOf(colValues: seq<real>, j: nat, birth: real): real {
    if j < |colValues| then colValues[j] else birth
  }

  /** The nonnegative pivots of the first n columns as pairs, in column order. */
  ghost function PairsOf(pivots: seq<int>, n: nat, colValues: seq<real>, rowValues: Option<seq<real>>): (ps: seq<Pair>)
    requires n <= |pivots|
  {
    if n == 0 then []
    else
      var rest := PairsOf(pivots, n - 1, colValues, rowValues);
      var p := pivots[n - 1];
      if p < 0 then rest
      else
        var birth := BirthOf(rowValues, p);
        rest + [Pair(p, n - 1, birth, DeathOf(colValues, n - 1, birth))]
  }

  /** The dictionary version of PivotTable. */
  ghost predicate PivotDict(r: seq<Col>, owner: map<nat, nat>) {
    && (forall row :: row in owner ==> owner[row] < |r| && Low(r[owner[row]]) == row)
    && (forall c :: 0 <= c < |r| && r[c] != {} ==> Low(r[c]) in owner && owner[Low(r[c])] == c)
  }

  lemma DictDistinct(r: seq<Col>, owner: map<nat, nat>)
    requires PivotDict(r, owner)
    ensures DistinctLows(r)
  {
    forall i, j | 0 <= i < j < |r| && r[i] != {} ensures Low(r[i]) != Low(r[j]) {
      assert owner[Low(r[i])] == i;
      if r[j] != {} { assert owner[Low(r[j])] == j; }
    }
  }

  lemma ExtendDict(r: seq<Col>, owner: map<nat, nat>, v: Col)
    requires PivotDict(r, owner)
    requires v != {} ==> Low(v) !in owner
    ensures PivotDict(r + [v], if v == {} then owner else owner[Low(v) := |r|])
  {
    var table := if v == {} then owner else owner[Low(v) := |r|];
    forall c | 0 <= c < |r + [v]| && (r + [v])[c] != {}
      ensures Low((r + [v])[c]) in table && table[Low((r + [v])[c])] == c
    {
      if c < |r| { assert (r + [v])[c] == r[c]; }
    }
  }

  method LazyCscColumn(mat: Csc, owner: map<nat, nat>, j: nat, ghost r: seq<Col>, ghost size: nat)
    returns (colSet: Col)
    requires |r| == j < |mat.cols| && Additions(mat.Columns(), r) && PivotDict(r, owner)
    requires forall j, x :: 0 <= j < |mat.cols| && x in mat.Columns()[j] ==> x < size
    ensures InCoset(mat.Columns(), j, colSet)
    ensures colSet != {} ==> Low(colSet) !in owner
  {
    ghost var d := mat.Columns();
    colSet := mat.Nonzero(j);
    assert colSet == d[j];
    CosetRefl(d, j);
    DictDistinct(r, owner);
    while colSet != {}
      invariant InCoset(d, j, colSet)
      invariant forall x :: x in colSet ==> x < size
      decreases Remaining(colSet, r, size)
    {
      var pivot := Low(colSet);
      if pivot in owner {
        var k := owner[pivot];
        CosetRefl(d, k);
        CosetAdd(d, j, colSet, k, d[k]);
        LazyStepDecreases(d, r, colSet, k, size);
        colSet := Xor(colSet, mat.Nonzero(k));
      } else {
        break;
      }
    }
  }

  /** Some bound on the row indices, needed only for the termination argument. */
  lemma {:induction false} RowBound(d: seq<Col>) returns (size: nat)
    ensures forall j, x :: 0 <= j < |d| && x in d[j] ==> x < size
  {
    size := 0;
    for n := 0 to |d|
      invariant forall j, x :: 0 <= j < n && x in d[j] ==> x < size
    {
      if size <= Low(d[n]) { size := Low(d[n]) + 1; }
    }
  }

  lemma {:induction false} PairsPrefix(p: seq<int>, q: seq<int>, n: nat, colValues: seq<real>,
      rowValues: Option<seq<real>>)
    requires n <= |p| <= |q| && q[..|p|] == p
    ensures PairsOf(p, n, colValues, rowValues) == PairsOf(q, n, colValues, rowValues)
  {
    if n > 0 {
      PairsPrefix(p, q, n - 1, colValues, rowValues);
      assert q[..|p|][n - 1] == q[n - 1];
    }
  }

  lemma PairsSnoc(pivots: seq<int>, p: int, colValues: seq<real>, rowValues: Option<seq<real>>)
    ensures var n := |pivots|; var longer := pivots + [p]; var rest := PairsOf(pivots, n, colValues, rowValues);
            PairsOf(longer, n + 1, colValues, rowValues) ==
            if p < 0 then rest
            else rest + [Pair(p, n, BirthOf(rowValues, p), DeathOf(colValues, n, BirthOf(rowValues, p)))]
  {
    PairsPrefix(pivots, pivots + [p], |pivots|, colValues, rowValues);
  }

  method ReduceCsc(mat: Csc, colValues: seq<real>, rowValues: Option<seq<real>>)
    returns (pairs: seq<Pair>)
    ensures pairs == PairsOf(Pivots(mat.Columns()), |mat.cols|, colValues, rowValues)
    ensures forall p :: p in pairs ==>
              && p.birth == (if rowValues.Some? && p.row < |rowValues.value| then rowValues.value[p.row] else 0.0)
              && p.death == (if p.col < |colValues| then colValues[p.col] else p.birth)
  {
    assert |mat.Columns()| == |mat.cols|;
    hide *;
    pairs := ListPairs(mat, colValues, rowValues);
    PairValues(Pivots(mat.Columns()), |mat.cols|, colValues, rowValues);
  }

  method ListPairs(mat: Csc, colValues: seq<real>, rowValues: Option<seq<real>>) returns (pairs: seq<Pair>)
    ensures pairs == PairsOf(Pivots(mat.Columns()), |mat.cols|, colValues, rowValues)
  {
    hide PivotDict, Additions, PairsOf, DistinctLows, PivotVector;
    ghost var d := mat.Columns();
    ghost var size := RowBound(d);
    ghost var r: seq<Col> := [];
    var owner: map<nat, nat> := map[];
    ghost var pivots: seq<int> := [];
    pairs := [];
    NothingReduced(d, colValues, rowValues);
    for j := 0 to |mat.cols|
      invariant |r| == j && Additions(d, r) && PivotDict(r, owner)
      invariant pivots == Lows(r)
      invariant pairs == PairsOf(pivots, j, colValues, rowValues)
    {
      hide BirthOf, DeathOf, IsReduction, InCoset;
      var colSet := LazyCscColumn(mat, owner, j, r, size);
      ExtendDict(r, owner, colSet);
      ExtendAdditions(d, r, colSet);
      PairsSnoc(pivots, Low(colSet), colValues, rowValues);
      if colSet != {} {
        var pivot := Low(colSet);
        owner := owner[pivot := j];
        var birth := BirthOf(rowValues, pivot);
        pairs := pairs + [Pair(pivot, j, birth, DeathOf(colValues, j, birth))];
      }
      r := r + [colSet];
      pivots := pivots + [Low(colSet)];
    }
    DictDistinct(r, owner);
    ReducedIffMinimal(d, r);
    PivotVectorUnique(d, pivots, Pivots(d));
  }

  /** The values of each listed pair, defaults included. */
  lemma {:induction false} PairValues(pivots: seq<int>, n: nat, colValues: seq<real>, rowValues: Option<seq<real>>)
    requires n <= |pivots|
    ensures forall p :: p in PairsOf(pivots, n, colValues, rowValues) ==>
              && p.birth == (if rowValues.Some? && p.row < |rowValues.value| then rowValues.value[p.row] else 0.0)
              && p.death == (if p.col < |colValues| then colValues[p.col] else p.birth)
  {
    if n > 0 { PairValues(pivots, n - 1, colValues, rowValues); }
  }

  lemma NothingReduced(d: seq<Col>, colValues: seq<real>, rowValues: Option<seq<real>>)
    ensures Additions(d, []) && PivotDict([], map[]) && PairsOf([], 0, colValues, rowValues) == []
  {
  }

  /** One matrix in three forms: the entries are tied one by one. */
  ghost predicate SameEntries(m: array2<bool>, columns: seq<seq<nat>>, lengths: seq<nat>, mat: Csc)
    requires |lengths| == |columns|
    requires forall j :: 0 <= j < |columns| ==> lengths[j] <= |columns[j]|
    reads m
  {
    && m.Length1 == |columns| == |mat.cols|
    && forall i: nat, j: nat :: j < |columns| ==>
         && (i in columns[j][..lengths[j]] <==> i < m.Length0 && m[i, j])
         && (i in columns[j][..lengths[j]] <==> i in mat.cols[j] && mat.cols[j][i] != 0)
  }

  lemma SameMatrix(m: array2<bool>, columns: seq<seq<nat>>, lengths: seq<nat>, mat: Csc)
    requires |lengths| == |columns|
    requires forall j :: 0 <= j < |columns| ==> lengths[j] <= |columns[j]|
    requires SameEntries(m, columns, lengths, mat)
    ensures Columns(m) == SparseColumns(columns, lengths) == mat.Columns()
  {
    var d := SparseColumns(columns, lengths);
    forall j: nat | j < |columns| ensures Columns(m)[j] == d[j] == mat.Columns()[j] {
      forall i: nat ensures (i in Columns(m)[j] <==> i in d[j]) && (i in mat.Columns()[j] <==> i in d[j]) {
        assert i in d[j] <==> i in columns[j][..lengths[j]];
      }
    }
  }

  /** All three reductions of one matrix find the same pairing, whatever the entries are. */
  method AllReductionsAgree(m: array2<bool>, columns: seq<seq<nat>>, lengths: seq<nat>, mat: Csc,
      colValues: seq<real>, rowValues: Option<seq<real>>)
    returns (dense: array<int>, sparse: array<int>, pairs: seq<Pair>)
    requires |lengths| == |columns|
    requires forall j :: 0 <= j < |columns| ==> lengths[j] <= |columns[j]|
    requires SameEntries(m, columns, lengths, mat)
    modifies m
    ensures dense[..] == sparse[..] == Pivots(old(Columns(m)))
    ensures pairs == PairsOf(dense[..], dense.Length, colValues, rowValues)
  {
    SameMatrix(m, columns, lengths, mat);
    sparse := ReduceSparse(columns, lengths);
    pairs := ReduceCsc(mat, colValues, rowValues);
    dense := ReduceDense(m);
  }
}
