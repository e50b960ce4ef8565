/** The diagram at every threshold. */
module Thresholds {
  // In every dimension the deaths listed up to t are the rank of the boundary matrix of the complex
  // at threshold t, so one reduction gives the Betti numbers of the complexes at all thresholds.

  import opened Wrappers
  import opened Z2
  import opened Pairing
  import opened Sorting
  import opened Simplices
  import opened ChainComplex
  import opened Filtration
  import opened Ranks
  import opened DegreeZero
  import Boundary
  import ColumnReduction
  import LazyTermination
  import Pipeline

  // ---------- spans ----------

  lemma NothingInSpan(d: seq<Col>)
    ensures {} in Span(d)
  {
    CombNone(d, {});
    SpanMember(d, {});
  }

  lemma ColumnInSpan(d: seq<Col>, j: nat)
    requires j < |d|
    ensures d[j] in Span(d)
  {
    CombOne(d, j);
    SpanMember(d, d[j]);
  }

  lemma {:induction false} SpanContained(a: seq<Col>, b: seq<Col>)
    requires forall x :: x in a ==> x in Span(b)
    ensures Span(a) <= Span(b)
  {
    if a == [] {
      NothingInSpan(b);
    } else {
      var last := |a| - 1;
      SpanContained(a[..last], b);
      forall v | v in Span(a[..last]) ensures Xor(v, a[last]) in Span(b) {
        SpanClosed(b, v, a[last]);
      }
    }
  }

  /** The span depends only on which columns there are. */
  lemma SpanOfSet(a: seq<Col>, b: seq<Col>)
    requires forall x :: x in a <==> x in b
    ensures Span(a) == Span(b)
  {
    forall x | x in a ensures x in Span(b) {
      var j :| 0 <= j < |b| && b[j] == x;
      ColumnInSpan(b, j);
    }
    forall x | x in b ensures x in Span(a) {
      var j :| 0 <= j < |a| && a[j] == x;
      ColumnInSpan(a, j);
    }
    SpanContained(a, b);
    SpanContained(b, a);
  }

  // ---------- renumbered rows ----------

  /** Row r becomes row f[r]. */
  ghost function Renumbered(f: seq<nat>, s: Col): (t: Col) {
    set r | r in s && r < |f| :: f[r]
  }

  ghost predicate Within(s: Col, m: nat) {
    forall r :: r in s ==> r < m
  }

  ghost function RenumberedMatrix(f: seq<nat>, d: seq<Col>): (e: seq<Col>) {
    seq(|d|, j requires 0 <= j < |d| => Renumbered(f, d[j]))
  }

  lemma RowKept(f: seq<nat>, s: Col, r: nat)
    requires Distinct(f) && r < |f|
    ensures f[r] in Renumbered(f, s) <==> r in s
  {
  }

  lemma RenumberXor(f: seq<nat>, a: Col, b: Col)
    requires Distinct(f) && Within(a, |f|) && Within(b, |f|)
    ensures Renumbered(f, Xor(a, b)) == Xor(Renumbered(f, a), Renumbered(f, b))
  {
    forall x ensures x in Renumbered(f, Xor(a, b)) <==> (x in Renumbered(f, a)) != (x in Renumbered(f, b)) {
      if r: nat :| r < |f| && f[r] == x {
        RowKept(f, a, r);
        RowKept(f, b, r);
        RowKept(f, Xor(a, b), r);
      }
    }
  }

  lemma RenumberInjective(f: seq<nat>, a: Col, b: Col)
    requires Distinct(f) && Within(a, |f|) && Within(b, |f|) && Renumbered(f, a) == Renumbered(f, b)
    ensures a == b
  {
    forall r: nat ensures r in a <==> r in b {
      if r < |f| {
        RowKept(f, a, r);
        RowKept(f, b, r);
      }
    }
  }

  lemma {:induction false} SpanWithin(d: seq<Col>, m: nat)
    requires forall j :: 0 <= j < |d| ==> Within(d[j], m)
    ensures forall v :: v in Span(d) ==> Within(v, m)
  {
    if d != [] { SpanWithin(d[..|d| - 1], m); }
  }

  ghost function Images(f: seq<nat>, s: set<Col>): (t: set<Col>) {
    set v | v in s :: Renumbered(f, v)
  }

  lemma {:induction false} ImagesSize(f: seq<nat>, s: set<Col>)
    requires Distinct(f) && forall v :: v in s ==> Within(v, |f|)
    ensures |Images(f, s)| == |s|
  {
    if s != {} {
      var v :| v in s;
      ImagesSize(f, s - {v});
      forall w | w in s && Renumbered(f, w) == Renumbered(f, v) ensures w == v {
        RenumberInjective(f, w, v);
      }
      assert Images(f, s) == Images(f, s - {v}) + {Renumbered(f, v)};
      assert Renumbered(f, v) !in Images(f, s - {v});
    }
  }

  lemma ImagesShifted(f: seq<nat>, s: set<Col>, x: Col)
    requires Distinct(f) && Within(x, |f|) && forall v :: v in s ==> Within(v, |f|)
    ensures Images(f, Shifted(s, x)) == Shifted(Images(f, s), Renumbered(f, x))
  {
    forall v | v in s ensures Renumbered(f, Xor(v, x)) == Xor(Renumbered(f, v), Renumbered(f, x)) {
      RenumberXor(f, v, x);
    }
    hide Renumbered;
    forall y | y in Images(f, Shifted(s, x)) ensures y in Shifted(Images(f, s), Renumbered(f, x)) {
      var v :| v in s && y == Renumbered(f, Xor(v, x));
      assert Renumbered(f, v) in Images(f, s);
    }
    forall y | y in Shifted(Images(f, s), Renumbered(f, x)) ensures y in Images(f, Shifted(s, x)) {
      var v :| v in s && y == Xor(Renumbered(f, v), Renumbered(f, x));
      assert Xor(v, x) in Shifted(s, x);
    }
  }

  lemma {:induction false} SpanRenumbered(f: seq<nat>, d: seq<Col>)
    requires Distinct(f) && forall j :: 0 <= j < |d| ==> Within(d[j], |f|)
    ensures Span(RenumberedMatrix(f, d)) == Images(f, Span(d))
  {
    if d == [] {
      assert Renumbered(f, {}) == {};
    } else {
      var last := |d| - 1;
      SpanRenumbered(f, d[..last]);
      SpanWithin(d[..last], |f|);
      ImagesShifted(f, Span(d[..last]), d[last]);
      assert RenumberedMatrix(f, d)[..last] == RenumberedMatrix(f, d[..last]);
    }
  }

  /** Renumbering the rows keeps the rank. */
  lemma RankRenumbered(f: seq<nat>, d: seq<Col>)
    requires Distinct(f) && forall j :: 0 <= j < |d| ==> Within(d[j], |f|)
    ensures |Span(RenumberedMatrix(f, d))| == |Span(d)|
  {
    SpanRenumbered(f, d);
    SpanWithin(d, |f|);
    ImagesSize(f, Span(d));
  }

  // ---------- killers of a prefix are its rank ----------

  lemma {:induction false} PairedAreKillers(pivots: seq<int>, k: nat)
    requires k <= |pivots|
    ensures PairedFrom(pivots, 0, k) == |Killers(pivots[..k])|
  {
    hide Killers;
    if k == 0 {
      NoKillers();
      assert pivots[..0] == [];
    } else {
      PairedAreKillers(pivots, k - 1);
      assert pivots[..k] == pivots[..k - 1] + [pivots[k - 1]];
      KillersSnoc(pivots[..k - 1], pivots[k - 1]);
    }
  }

  lemma KillersAreRank(d: seq<Col>, k: nat)
    requires k <= |d|
    ensures IsRank(d[..k], |Killers(Pivots(d)[..k])|)
  {
    RankFormula(d, 0, k);
    PairedAreKillers(Pivots(d), k);
    assert Corner(d, 0, k) == d[..k] by {
      forall c | 0 <= c < k ensures From(d[c], 0) == d[c] {
      }
    }
  }

  // ---------- the complex at a smaller threshold ----------

  function At(c: Cloud, t: real): Cloud {
    Cloud(c.n, c.dist, t)
  }

  /** A simplex of dimension 1 or more is there at t exactly when its longest edge is. */
  lemma SimplexAt(c: Cloud, t: real, d: nat, s: Simplex, v: real)
    requires d > 0 && IsSimplex(c, d, s) && IsLongestEdge(c, s, v)
    ensures IsSimplex(At(c, t), d, s) <==> v <= t
  {
    var i, j :| 0 <= i < j < |s| && v == c.dist(s[i], s[j]);
    assert At(c, t).Near(s[i], s[j]) <==> v <= t;
    if v <= t {
      forall x, y | 0 <= x < y < |s| ensures At(c, t).Near(s[x], s[y]) {
      }
    }
  }

  lemma SimplexBelow(c: Cloud, t: real, d: nat, s: Simplex)
    requires t <= c.threshold && IsSimplex(At(c, t), d, s)
    ensures IsSimplex(c, d, s)
  {
    forall x, y | 0 <= x < y < |s| ensures c.Near(s[x], s[y]) {
      assert At(c, t).Near(s[x], s[y]);
    }
  }

  /** Where the simplices at t stand in the list of the whole complex. */
  lemma Places(c: Cloud, t: real, d: nat, small: seq<Simplex>, big: seq<Simplex>) returns (f: seq<nat>)
    requires t <= c.threshold && IsLevel(At(c, t), d, small) && IsLevel(c, d, big)
    ensures |f| == |small| && Distinct(f)
    ensures forall r :: 0 <= r < |f| ==> f[r] < |big| && big[f[r]] == small[r]
  {
    LevelIsProper(At(c, t), d, small);
    forall r | 0 <= r < |small| ensures small[r] in big {
      assert small[r] in small;
      SimplexBelow(c, t, d, small[r]);
    }
    f := [];
    for r := 0 to |small|
      invariant |f| == r && forall q :: 0 <= q < r ==> f[q] < |big| && big[f[q]] == small[q]
    {
      var k: nat :| k < |big| && big[k] == small[r];
      f := f + [k];
    }
  }

  /** The rows of a simplex at t are the same faces in both lists. */
  lemma FacesPlaced(c: Cloud, t: real, d: nat, small: seq<Simplex>, big: seq<Simplex>, f: seq<nat>, s: Simplex)
    requires t <= c.threshold && IsLevel(At(c, t), d, small) && IsLevel(c, d, big)
    requires |f| == |small| && forall r :: 0 <= r < |f| ==> f[r] < |big| && big[f[r]] == small[r]
    requires IsSimplex(At(c, t), d + 1, s)
    ensures Renumbered(f, Boundary.FaceRows(small, s)) == Boundary.FaceRows(big, s)
    ensures Within(Boundary.FaceRows(small, s), |f|)
  {
    LevelIsProper(c, d, big);
    hide Boundary.Incidence, LexLt;
    forall q | q in Boundary.FaceRows(big, s) ensures q in Renumbered(f, Boundary.FaceRows(small, s)) {
      FaceListed(c, t, d, small, big[q], s);
      var r: nat :| r < |small| && small[r] == big[q];
      assert big[f[r]] == big[q];
      assert r in Boundary.FaceRows(small, s);
    }
  }

  lemma FaceListed(c: Cloud, t: real, d: nat, small: seq<Simplex>, face: Simplex, s: Simplex)
    requires IsLevel(At(c, t), d, small) && IsSimplex(At(c, t), d + 1, s) && Boundary.Incidence(face, s) != 0
    ensures face in small
  {
    Boundary.IncidenceUnit(face, s, |s|);
    var i :| 0 <= i < |s| && Remove(s, i) == face;
    FaceIsSimplex(At(c, t), d, s, i);
  }

  // ---------- the ranks at t ----------

  /** The boundary matrix at t has the rank of the same columns over the rows of the whole complex. */
  lemma MatrixPlaced(c: Cloud, t: real, d: nat, smallRows: seq<Simplex>, small: seq<Simplex>, bigRows: seq<Simplex>)
    requires t <= c.threshold && IsLevel(At(c, t), d, smallRows) && IsLevel(At(c, t), d + 1, small)
    requires IsLevel(c, d, bigRows)
    ensures |Span(Boundary.FaceMatrix(bigRows, small))| == |Span(Boundary.FaceMatrix(smallRows, small))|
  {
    var f := Places(c, t, d, smallRows, bigRows);
    var mat := Boundary.FaceMatrix(smallRows, small);
    forall j | 0 <= j < |small|
      ensures Renumbered(f, mat[j]) == Boundary.FaceRows(bigRows, small[j]) && Within(mat[j], |f|)
    {
      assert small[j] in small;
      FacesPlaced(c, t, d, smallRows, bigRows, f, small[j]);
    }
    hide IsLevel, Span, Renumbered, Within, Boundary.FaceRows;
    RankRenumbered(f, mat);
    assert RenumberedMatrix(f, mat) == Boundary.FaceMatrix(bigRows, small);
  }

  /** Lists of the same simplices give the same columns. */
  lemma SameColumns(rows: seq<Simplex>, a: seq<Simplex>, b: seq<Simplex>)
    requires forall s :: s in a ==> s in b
    ensures forall x :: x in Boundary.FaceMatrix(rows, a) ==> x in Boundary.FaceMatrix(rows, b)
  {
    hide Boundary.FaceRows;
    forall x | x in Boundary.FaceMatrix(rows, a) ensures x in Boundary.FaceMatrix(rows, b) {
      var j :| 0 <= j < |a| && Boundary.FaceMatrix(rows, a)[j] == x;
      assert a[j] in b;
      var l :| 0 <= l < |b| && b[l] == a[j];
      assert Boundary.FaceMatrix(rows, b)[l] == x;
    }
  }

  /** The first k simplices in the given order. */
  ghost function Firsts(big: seq<Simplex>, order: seq<nat>, k: nat): (first: seq<Simplex>)
    requires k <= |order| && forall l :: 0 <= l < |order| ==> order[l] < |big|
  {
    seq(k, l requires 0 <= l < k => big[order[l]])
  }

  /** The first k simplices in filtration order are the simplices at t. */
  lemma SimplicesAt(c: Cloud, t: real, d: nat, small: seq<Simplex>, big: seq<Simplex>, values: seq<real>,
      order: seq<nat>, k: nat)
    requires d > 0 && t <= c.threshold && IsLevel(At(c, t), d, small) && IsLevel(c, d, big)
    requires Filtered(c, big, values) && IsArgsort(order, values) && Cut(OrderedValues(values, order), t, k)
    ensures |order| == |big| && k <= |order| && forall l :: 0 <= l < |order| ==> order[l] < |big|
    ensures forall s :: s in Firsts(big, order, k) <==> s in small
    ensures small == [] ==> k == 0
  {
    forall l | 0 <= l < |order| ensures big[order[l]] in small <==> l < k {
      var s := big[order[l]];
      assert s in big && IsLongestEdge(c, s, values[order[l]]);
      SimplexAt(c, t, d, s, values[order[l]]);
      assert OrderedValues(values, order)[l] == values[order[l]];
    }
    assert k > 0 ==> big[order[0]] in small;
    forall s | s in small ensures s in Firsts(big, order, k) {
      SimplexBelow(c, t, d, s);
      var m: nat :| m < |big| && big[m] == s;
      assert m in order;
      var l :| 0 <= l < |order| && order[l] == m;
      assert Firsts(big, order, k)[l] == s;
    }
  }

  lemma FirstColumns(rows: seq<Simplex>, big: seq<Simplex>, order: seq<nat>, cols: seq<Col>, k: nat)
    requires |cols| == |order| && forall l :: 0 <= l < |order| ==> order[l] < |big|
    requires forall l :: 0 <= l < |order| ==> cols[l] == Boundary.FaceRows(rows, big[order[l]])
    requires k <= |order|
    ensures cols[..k] == Boundary.FaceMatrix(rows, Firsts(big, order, k))
  {
    hide Boundary.FaceRows;
  }

  /** The columns up to t have the rank of the boundary matrix at t. */
  lemma ColumnsAt(c: Cloud, t: real, d: nat, smallRows: seq<Simplex>, small: seq<Simplex>,
      bigRows: seq<Simplex>, big: seq<Simplex>, values: seq<real>, order: seq<nat>, cols: seq<Col>, k: nat)
    requires t <= c.threshold && IsLevel(At(c, t), d, smallRows) && IsLevel(At(c, t), d + 1, small)
    requires IsLevel(c, d, bigRows) && IsLevel(c, d + 1, big)
    requires Filtered(c, big, values) && IsArgsort(order, values) && Cut(OrderedValues(values, order), t, k)
    requires |cols| == |order| && forall l :: 0 <= l < |order| ==> order[l] < |big|
    requires forall l :: 0 <= l < |order| ==> cols[l] == Boundary.FaceRows(bigRows, big[order[l]])
    ensures k <= |cols| && |Span(cols[..k])| == |Span(Boundary.FaceMatrix(smallRows, small))|
  {
    hide *;
    MatrixPlaced(c, t, d, smallRows, small, bigRows);
    SimplicesAt(c, t, d + 1, small, big, values, order, k);
    SameColumns(bigRows, Firsts(big, order, k), small);
    SameColumns(bigRows, small, Firsts(big, order, k));
    FirstColumns(bigRows, big, order, cols, k);
    SpanOfSet(cols[..k], Boundary.FaceMatrix(bigRows, small));
  }

  /** In one dimension of the whole complex the deaths up to t are the rank at t. */
  lemma DeathsUpTo(c: Cloud, t: real, d: nat, smallRows: seq<Simplex>, small: seq<Simplex>, bigRows: seq<Simplex>,
      big: seq<Simplex>, values: seq<real>, order: seq<nat>, cols: seq<Col>, rowValues: Option<seq<real>>)
    requires t <= c.threshold && IsLevel(At(c, t), d, smallRows) && IsLevel(At(c, t), d + 1, small)
    requires IsLevel(c, d, bigRows) && IsLevel(c, d + 1, big)
    requires Filtered(c, big, values) && IsArgsort(order, values)
    requires |cols| == |order| && forall l :: 0 <= l < |order| ==> order[l] < |big|
    requires forall l :: 0 <= l < |order| ==> cols[l] == Boundary.FaceRows(bigRows, big[order[l]])
    ensures IsRank(Boundary.FaceMatrix(smallRows, small),
              DeadBy(ColumnReduction.PairsOf(Pivots(cols), |cols|, OrderedValues(values, order), rowValues), t))
  {
    var death := OrderedValues(values, order);
    var k := CutExists(death, t);
    hide Boundary.FaceRows, Boundary.FaceMatrix, OrderedValues;
    hide IsLevel, Filtered, IsArgsort, Pivots, PivotVector, Killers, Span, Cut;
    ColumnsAt(c, t, d, smallRows, small, bigRows, big, values, order, cols, k);
    DeadByKillers(Pivots(cols), |cols|, death, rowValues, t, k);
    KillersAreRank(cols, k);
  }

  /** Every dimension has its values and its order. */
  ghost predicate Sorted(c: Cloud, levels: seq<seq<Simplex>>, values: seq<seq<real>>, orders: seq<seq<nat>>) {
    && |values| == |orders| == |levels|
    && forall d :: 0 <= d < |levels| ==> Filtered(c, levels[d], values[d]) && IsArgsort(orders[d], values[d])
  }

  /** The pairs that die in dimension d, columns in filtration order. */
  ghost function PairsIn(c: Cloud, levels: seq<seq<Simplex>>, values: seq<seq<real>>, orders: seq<seq<nat>>, d: nat)
      : (pairs: seq<ColumnReduction.Pair>)
    requires Sorted(c, levels, values, orders)
  {
    if 0 < d < |levels| then
      var cols := OrderedColumns(levels, d, orders[d]);
      ColumnReduction.PairsOf(Pivots(cols), |cols|, OrderedValues(values[d], orders[d]), Some(values[d - 1]))
    else []
  }

  lemma DeathsAreRank(c: Cloud, levels: seq<seq<Simplex>>, values: seq<seq<real>>, orders: seq<seq<nat>>, t: real,
      d: nat, smallRows: seq<Simplex>, small: seq<Simplex>)
    requires Sorted(c, levels, values, orders) && 0 < d < |levels| && t <= c.threshold
    requires IsLevel(c, d - 1, levels[d - 1]) && IsLevel(c, d, levels[d])
    requires IsLevel(At(c, t), d - 1, smallRows) && IsLevel(At(c, t), d, small)
    ensures IsRank(Boundary.FaceMatrix(smallRows, small), DeadBy(PairsIn(c, levels, values, orders, d), t))
  {
    assert |values[d]| == |levels[d]|;
    hide IsLevel, Filtered, Pivots, PivotVector, IsRank, DeadBy, Boundary.FaceRows, Boundary.FaceMatrix;
    DeathsUpTo(c, t, d - 1, smallRows, small, levels[d - 1], levels[d], values[d], orders[d],
      OrderedColumns(levels, d, orders[d]), Some(values[d - 1]));
  }

  lemma NothingAt(c: Cloud, levels: seq<seq<Simplex>>, values: seq<seq<real>>, orders: seq<seq<nat>>, t: real, d: nat)
    requires Sorted(c, levels, values, orders) && 0 < d < |levels| && t <= c.threshold
    requires IsLevel(c, d, levels[d]) && IsLevel(At(c, t), d, [])
    ensures DeadBy(PairsIn(c, levels, values, orders, d), t) == 0
  {
    var order, death := orders[d], OrderedValues(values[d], orders[d]);
    var cols := OrderedColumns(levels, d, order);
    var k := CutExists(death, t);
    SimplicesAt(c, t, d, [], levels[d], values[d], order, k);
    hide IsLevel, Filtered, IsArgsort, Pivots, PivotVector, Killers;
    DeadByKillers(Pivots(cols), |cols|, death, Some(values[d - 1]), t, 0);
    NoKillers();
    assert Pivots(cols)[..0] == [];
  }

  /** In every dimension and at every threshold up to that of the complex: the rank of the complex
      at t is the number of listed deaths up to t. */
  lemma RankAtThreshold(c: Cloud, levels: seq<seq<Simplex>>, maxDim: int, values: seq<seq<real>>,
      orders: seq<seq<nat>>, t: real, levelsT: seq<seq<Simplex>>, d: nat)
    requires IsComplexUpTo(c, levels, maxDim) && IsComplexUpTo(At(c, t), levelsT, maxDim)
    requires Sorted(c, levels, values, orders) && t <= c.threshold
    ensures Rank(Pipeline.AllPivots(Matrices(levelsT)), d) == DeadBy(PairsIn(c, levels, values, orders, d), t)
  {
    var mats := Matrices(levelsT);
    var pivots := Pipeline.AllPivots(mats);
    if d == 0 {
      VietorisRipsIsComplex(At(c, t), levelsT, maxDim);
      VerticesKillNothing(mats, pivots);
    } else if d >= |levelsT| {
      if d < |levels| {
        assert IsLevel(At(c, t), d, []);
        NothingAt(c, levels, values, orders, t, d);
      }
    } else if d >= |levels| {
      NoneAbove(c, levels, maxDim, t, levelsT, d);
      NoKillers();
    } else {
      var small := levelsT[d];
      DeathsAreRank(c, levels, values, orders, t, d, levelsT[d - 1], small);
      MatrixAt(levelsT, d, 0);
      KillersAreRank(mats[d], |mats[d]|);
      assert mats[d][..|mats[d]|] == mats[d] && pivots[d][..|mats[d]|] == pivots[d];
      RankUnique(mats[d], Rank(pivots, d), DeadBy(PairsIn(c, levels, values, orders, d), t));
    }
  }

  lemma NoneAbove(c: Cloud, levels: seq<seq<Simplex>>, maxDim: int, t: real, levelsT: seq<seq<Simplex>>, d: nat)
    requires IsComplexUpTo(c, levels, maxDim) && IsComplexUpTo(At(c, t), levelsT, maxDim)
    requires t <= c.threshold && |levels| <= d < |levelsT|
    ensures levelsT[d] == [] && Pipeline.AllPivots(Matrices(levelsT))[d] == []
  {
    if levelsT[d] != [] {
      assert levelsT[d][0] in levelsT[d];
      SimplexBelow(c, t, d, levelsT[d][0]);
    }
    if d > 0 { MatrixAt(levelsT, d, 0); }
  }

  /** One reduction gives the Betti numbers at all thresholds. */
  lemma BettiAtThreshold(c: Cloud, levels: seq<seq<Simplex>>, maxDim: int, values: seq<seq<real>>,
      orders: seq<seq<nat>>, t: real, levelsT: seq<seq<Simplex>>, d: nat)
    requires IsComplexUpTo(c, levels, maxDim) && IsComplexUpTo(At(c, t), levelsT, maxDim)
    requires Sorted(c, levels, values, orders) && t <= c.threshold && d < |levelsT|
    ensures |Essential(Pipeline.AllPivots(Matrices(levelsT)), d)| == |levelsT[d]|
              - DeadBy(PairsIn(c, levels, values, orders, d), t) - DeadBy(PairsIn(c, levels, values, orders, d + 1), t)
  {
    VietorisRipsIsComplex(At(c, t), levelsT, maxDim);
    BettiCount(Matrices(levelsT), Pipeline.AllPivots(Matrices(levelsT)), d);
    RankAtThreshold(c, levels, maxDim, values, orders, t, levelsT, d);
    RankAtThreshold(c, levels, maxDim, values, orders, t, levelsT, d + 1);
    if d > 0 { MatrixAt(levelsT, d, 0); }
  }
}
