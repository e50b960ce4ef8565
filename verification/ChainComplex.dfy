/** Clearing, Betti numbers and Euler-Poincare. */
module ChainComplex {
  // What follows once consecutive matrices multiply to zero, and why the matrices of an enumerated
  // complex do.

  import opened Z2
  import opened Pairing
  import opened Simplices
  import opened Sorting
  import Graph
  import Boundary

  /** mats[d] is the mod 2 boundary matrix from dimension d to dimension d - 1; vertices have no
      boundary, and the boundary of a boundary is empty. */
  ghost predicate IsComplex(mats: seq<seq<Col>>) {
    && (|mats| > 0 ==> forall j :: 0 <= j < |mats[0]| ==> mats[0][j] == {})
    && forall d, j :: 0 < d < |mats| && 0 <= j < |mats[d]| ==>
         && Comb(mats[d - 1], mats[d][j]) == {}
         && forall r :: r in mats[d][j] ==> r < |mats[d - 1]|
  }

  ghost predicate AllReduced(mats: seq<seq<Col>>, pivots: seq<seq<int>>) {
    |pivots| == |mats| && forall d :: 0 <= d < |mats| ==> PivotVector(mats[d], pivots[d])
  }

  /** A combination of boundaries has no boundary. */
  lemma {:induction false} BoundaryOfComb(low: seq<Col>, high: seq<Col>, comb: set<nat>)
    requires forall j :: 0 <= j < |high| ==> Comb(low, high[j]) == {}
    ensures Comb(low, Comb(high, comb)) == {}
  {
    if high == [] {
      CombNone(low, {});
    } else {
      var last := |high| - 1;
      BoundaryOfComb(low, high[..last], comb);
      var w := Comb(high[..last], comb);
      CombLinear(low, w, high[last]);
      CombLinear(low, w, {});
      CombNone(low, {});
    }
  }

  /** A cycle whose lowest simplex is i empties column i. */
  lemma CycleClears(low: seq<Col>, cycle: set<nat>, i: nat)
    requires Comb(low, cycle) == {} && Low(cycle) == i < |low|
    ensures InCoset(low, i, {})
  {
    CombPrefix(low, i + 1, cycle);
    CombSnoc(low, i, cycle);
    assert Xor(low[i], Comb(low[..i], cycle)) == {};
  }

  /** Clearing: a pivot row of one dimension is a column that reduces to nothing one dimension
      below. */
  lemma Clearing(low: seq<Col>, high: seq<Col>, lowPivots: seq<int>, highPivots: seq<int>, j: nat)
    requires forall j :: 0 <= j < |high| ==> Comb(low, high[j]) == {}
    requires forall j, r :: 0 <= j < |high| && r in high[j] ==> r < |low|
    requires PivotVector(low, lowPivots) && PivotVector(high, highPivots)
    requires j < |high| && highPivots[j] >= 0
    ensures highPivots[j] < |low| && lowPivots[highPivots[j]] == -1
  {
    assert IsPivot(high, j, highPivots[j]);
    var v :| InCoset(high, j, v) && Low(v) == highPivots[j];
    var comb :| v == Xor(high[j], Comb(high[..j], comb));
    BoundaryOfComb(low, high[..j], comb);
    CombLinear(low, high[j], Comb(high[..j], comb));
    CombBounded(high[..j], comb, |low|);
    var i: nat := highPivots[j];
    CycleClears(low, v, i);
    assert IsPivot(low, i, lowPivots[i]);
  }

  // ---------- conservation ----------

  /** Columns of dimension d that reduce to something: simplices that kill a class. */
  ghost function Killers(pivots: seq<int>): (s: set<nat>) {
    set j: nat | j < |pivots| && pivots[j] >= 0
  }

  lemma KillersSnoc(pivots: seq<int>, p: int)
    ensures |Killers(pivots + [p])| == |Killers(pivots)| + if p >= 0 then 1 else 0
  {
    var before, after := Killers(pivots), Killers(pivots + [p]);
    assert |pivots| !in before;
    assert after == if p >= 0 then before + {|pivots|} else before;
  }

  lemma NoKillers()
    ensures Killers([]) == {}
  {
  }

  /** Pivot rows: simplices whose class is killed from one dimension above. */
  ghost function Killed(pivots: seq<int>): (s: set<nat>) {
    set j | 0 <= j < |pivots| && pivots[j] >= 0 :: pivots[j] as nat
  }

  ghost function KilledIn(pivots: seq<seq<int>>, d: nat): set<nat> {
    if d + 1 < |pivots| then Killed(pivots[d + 1]) else {}
  }

  ghost function Essential(pivots: seq<seq<int>>, d: nat): (s: set<nat>)
    requires d < |pivots|
  {
    set j: nat | j < |pivots[d]| && j !in Killers(pivots[d]) && j !in KilledIn(pivots, d)
  }

  /** Each simplex is exactly one of killer, killed and essential. */
  lemma Trichotomy(mats: seq<seq<Col>>, pivots: seq<seq<int>>, d: nat)
    requires IsComplex(mats) && AllReduced(mats, pivots) && d < |mats|
    ensures Killers(pivots[d]) !! KilledIn(pivots, d)
    ensures forall j: nat :: j < |mats[d]| <==> j in Killers(pivots[d]) + KilledIn(pivots, d) + Essential(pivots, d)
  {
    assert PivotVector(mats[d], pivots[d]);
    if d + 1 < |mats| {
      assert PivotVector(mats[d + 1], pivots[d + 1]);
      var above := pivots[d + 1];
      forall j: nat | j < |above| && above[j] >= 0
        ensures above[j] < |mats[d]| && pivots[d][above[j]] == -1
      {
        Clearing(mats[d], mats[d + 1], pivots[d], pivots[d + 1], j);
      }
    }
  }

  ghost predicate PairwiseDistinct(pivots: seq<int>) {
    forall i, j :: 0 <= i < j < |pivots| && pivots[i] >= 0 ==> pivots[i] != pivots[j]
  }

  lemma KilledMember(pivots: seq<int>, x: nat)
    ensures x in Killed(pivots) <==> x in pivots
  {
    if x in pivots {
      var j :| 0 <= j < |pivots| && pivots[j] == x;
      assert (pivots[j] as nat) in Killed(pivots);
    }
  }

  lemma KilledSnoc(pivots: seq<int>, p: int)
    requires PairwiseDistinct(pivots + [p])
    ensures PairwiseDistinct(pivots)
    ensures p >= 0 ==> Killed(pivots + [p]) == Killed(pivots) + {p} && p !in Killed(pivots)
    ensures p < 0 ==> Killed(pivots + [p]) == Killed(pivots)
    ensures Killers(pivots + [p]) == Killers(pivots) + if p >= 0 then {|pivots|} else {}
  {
    var q := pivots + [p];
    forall i, j | 0 <= i < j < |pivots| && pivots[i] >= 0 ensures pivots[i] != pivots[j] {
      assert q[i] != q[j];
    }
    forall x: nat ensures x in Killed(q) <==> x in Killed(pivots) || x == p {
      KilledMember(q, x);
      KilledMember(pivots, x);
    }
    if p >= 0 {
      KilledMember(pivots, p);
      forall j | 0 <= j < |pivots| ensures pivots[j] != p {
        assert q[j] == pivots[j] && q[|pivots|] == p;
      }
    }
  }

  /** A pivot belongs to one column, so as many simplices are killed as kill. */
  lemma {:induction false} KilledSize(pivots: seq<int>)
    requires PairwiseDistinct(pivots)
    ensures |Killed(pivots)| == |Killers(pivots)|
  {
    if pivots != [] {
      hide Killed, PairwiseDistinct;
      var last := |pivots| - 1;
      var rest := pivots[..last];
      assert pivots == rest + [pivots[last]];
      KilledSnoc(rest, pivots[last]);
      KilledSize(rest);
      assert last !in Killers(rest);
    }
  }

  lemma PivotsDistinct(d: seq<Col>, pivots: seq<int>)
    requires PivotVector(d, pivots)
    ensures PairwiseDistinct(pivots)
  {
    forall i, j | 0 <= i < j < |pivots| && pivots[i] >= 0 ensures pivots[i] != pivots[j] {
      PivotsInjective(d, pivots, i, j);
    }
  }

  ghost function Rank(pivots: seq<seq<int>>, d: nat): nat {
    if d < |pivots| then |Killers(pivots[d])| else 0
  }

  lemma DisjointSizes(a: set<nat>, b: set<nat>, c: set<nat>, n: nat)
    requires a !! b && (a + b) !! c
    requires forall j: nat :: j < n <==> j in a + b + c
    ensures n == |a| + |b| + |c|
  {
    assert a + b + c == Graph.Below(n);
    assert |a + b| == |a| + |b|;
  }

  /** The d-th Betti number, counted as essential simplices, is n_d - r_d - r_(d+1). */
  lemma BettiCount(mats: seq<seq<Col>>, pivots: seq<seq<int>>, d: nat)
    requires IsComplex(mats) && AllReduced(mats, pivots) && d < |mats|
    ensures |Essential(pivots, d)| == |mats[d]| - Rank(pivots, d) - Rank(pivots, d + 1)
  {
    Trichotomy(mats, pivots, d);
    DisjointSizes(Killers(pivots[d]), KilledIn(pivots, d), Essential(pivots, d), |mats[d]|);
    if d + 1 < |mats| {
      assert PivotVector(mats[d + 1], pivots[d + 1]);
      PivotsDistinct(mats[d + 1], pivots[d + 1]);
      KilledSize(pivots[d + 1]);
    }
  }

  /** x with the sign of dimension d. */
  ghost function Signed(d: nat, x: int): int {
    if d % 2 == 0 then x else -x
  }

  ghost function Alternating(counts: seq<int>): int {
    if counts == [] then 0 else Alternating(counts[..|counts| - 1]) + Signed(|counts| - 1, counts[|counts| - 1])
  }

  ghost function SimplexCounts(mats: seq<seq<Col>>): seq<int> {
    seq(|mats|, d requires 0 <= d < |mats| => |mats[d]|)
  }

  ghost function BettiNumbers(pivots: seq<seq<int>>): seq<int> {
    seq(|pivots|, d requires 0 <= d < |pivots| => |Essential(pivots, d)|)
  }

  /** With betti[d] == counts[d] - rank[d] - rank[d + 1] the ranks telescope away. */
  lemma {:induction false} RanksTelescope(counts: seq<int>, betti: seq<int>, rank: seq<int>)
    requires |betti| == |counts| && |rank| == |counts| + 1 && rank[0] == 0
    requires forall d :: 0 <= d < |counts| ==> betti[d] == counts[d] - rank[d] - rank[d + 1]
    ensures Alternating(counts) - Alternating(betti) == if counts == [] then 0 else Signed(|counts| - 1, rank[|counts|])
  {
    if counts != [] {
      var last := |counts| - 1;
      RanksTelescope(counts[..last], betti[..last], rank[..last + 1]);
      assert betti[last] == counts[last] - rank[last] - rank[last + 1];
    }
  }

  lemma VerticesKillNothing(mats: seq<seq<Col>>, pivots: seq<seq<int>>)
    requires IsComplex(mats) && AllReduced(mats, pivots) && |mats| > 0
    ensures Rank(pivots, 0) == 0
  {
    forall j: nat | j < |pivots[0]| ensures pivots[0][j] < 0 {
      assert IsPivot(mats[0], j, pivots[0][j]);
      CosetRefl(mats[0], j);
    }
    assert Killers(pivots[0]) == {};
  }

  /** Euler-Poincare: simplex counts and Betti numbers have the same alternating sum. */
  lemma EulerPoincare(mats: seq<seq<Col>>, pivots: seq<seq<int>>)
    requires IsComplex(mats) && AllReduced(mats, pivots)
    ensures Alternating(SimplexCounts(mats)) == Alternating(BettiNumbers(pivots))
  {
    hide IsComplex, PivotVector, Killers, KilledIn, Essential;
    var rank := seq(|mats| + 1, d requires 0 <= d <= |mats| => Rank(pivots, d));
    if |mats| > 0 { VerticesKillNothing(mats, pivots); }
    forall d: nat | d < |mats| ensures |Essential(pivots, d)| == |mats[d]| - rank[d] - rank[d + 1] {
      BettiCount(mats, pivots, d);
    }
    RanksTelescope(SimplexCounts(mats), BettiNumbers(pivots), rank);
  }

  // ---------- the enumerated complex is a chain complex ----------

  ghost function Matrices(levels: seq<seq<Simplex>>): (mats: seq<seq<Col>>)
    ensures |mats| == |levels|
  {
    seq(|levels|, d requires 0 <= d < |levels| =>
      if d == 0 then seq(|levels[0]|, _ => {}) else Boundary.FaceMatrix(levels[d - 1], levels[d]))
  }

  lemma LevelIsProper(c: Cloud, d: nat, list: seq<Simplex>)
    requires IsLevel(c, d, list)
    ensures Distinct(list) && Boundary.AllIncreasing(list)
    ensures forall k :: 0 <= k < |list| ==> |list[k]| == d + 1
  {
    forall k | 0 <= k < |list| ensures IsSimplex(c, d, list[k]) {
      assert list[k] in list;
    }
    forall i, j | 0 <= i < j < |list| ensures list[i] != list[j] {
      LexIrreflexive(list[i]);
    }
  }

  lemma VietorisRipsIsComplex(c: Cloud, levels: seq<seq<Simplex>>, maxDim: int)
    requires IsComplexUpTo(c, levels, maxDim)
    ensures IsComplex(Matrices(levels))
  {
    var mats := Matrices(levels);
    forall d, j | 0 < d < |mats| && 0 <= j < |mats[d]|
      ensures Comb(mats[d - 1], mats[d][j]) == {} && forall r :: r in mats[d][j] ==> r < |mats[d - 1]|
    {
      EnumeratedColumn(c, levels, maxDim, d, j);
    }
  }

  lemma FacesBelow(c: Cloud, levels: seq<seq<Simplex>>, maxDim: int, d: nat, j: nat)
    requires IsComplexUpTo(c, levels, maxDim) && 0 < d < |levels| && j < |levels[d]|
    ensures var s := levels[d][j];
            |s| == d + 1 && Increasing(s) && forall i :: 0 <= i < |s| ==> Remove(s, i) in levels[d - 1]
    ensures Distinct(levels[d - 1]) && Boundary.AllIncreasing(levels[d - 1])
  {
    var s := levels[d][j];
    assert IsLevel(c, d, levels[d]) && IsLevel(c, d - 1, levels[d - 1]);
    LevelIsProper(c, d, levels[d]);
    LevelIsProper(c, d - 1, levels[d - 1]);
    forall i | 0 <= i < |s| ensures Remove(s, i) in levels[d - 1] {
      FacesEnumerated(c, levels, maxDim, d, j, i);
    }
  }

  lemma EnumeratedColumn(c: Cloud, levels: seq<seq<Simplex>>, maxDim: int, d: nat, j: nat)
    requires IsComplexUpTo(c, levels, maxDim) && 0 < d < |levels| && j < |levels[d]|
    ensures var mats := Matrices(levels);
            Comb(mats[d - 1], mats[d][j]) == {} && forall r :: r in mats[d][j] ==> r < |mats[d - 1]|
  {
    FacesBelow(c, levels, maxDim, d, j);
    hide IsComplexUpTo;
    MatrixAt(levels, d, j);
    if d == 1 {
      BottomEmpty(levels);
      EmptyColumns(Matrices(levels)[0], Matrices(levels)[1][j]);
    } else {
      FacesCancel(levels, d, j);
    }
  }

  lemma FacesCancel(levels: seq<seq<Simplex>>, d: nat, j: nat)
    requires 1 < d < |levels| && j < |levels[d]| && |levels[d][j]| > 0 && Increasing(levels[d][j])
    requires forall i :: 0 <= i < |levels[d][j]| ==> Remove(levels[d][j], i) in levels[d - 1]
    requires Distinct(levels[d - 1]) && Boundary.AllIncreasing(levels[d - 1])
    ensures Comb(Matrices(levels)[d - 1], Matrices(levels)[d][j]) == {}
  {
    hide Matrices, Increasing, Comb, Boundary.FaceMatrix, Boundary.FaceRows, Distinct, Boundary.AllIncreasing;
    MatrixAt(levels, d, j);
    MatrixAt(levels, d - 1, 0);
    Boundary.FacesHaveNoBoundary(levels[d - 2], levels[d - 1], levels[d][j]);
  }

  lemma MatrixAt(levels: seq<seq<Simplex>>, d: nat, j: nat)
    requires 0 < d < |levels|
    ensures Matrices(levels)[d] == Boundary.FaceMatrix(levels[d - 1], levels[d])
    ensures |Matrices(levels)[d - 1]| == |levels[d - 1]|
    ensures j < |levels[d]| ==> Matrices(levels)[d][j] == Boundary.FaceRows(levels[d - 1], levels[d][j])
    ensures j < |levels[d]| ==> forall r :: r in Matrices(levels)[d][j] ==> r < |levels[d - 1]|
  {
  }

  lemma BottomEmpty(levels: seq<seq<Simplex>>)
    requires |levels| > 0
    ensures forall k :: 0 <= k < |Matrices(levels)[0]| ==> Matrices(levels)[0][k] == {}
  {
  }

  lemma {:induction false} EmptyColumns(low: seq<Col>, comb: set<nat>)
    requires forall j :: 0 <= j < |low| ==> low[j] == {}
    ensures Comb(low, comb) == {}
  {
    if low != [] { EmptyColumns(low[..|low| - 1], comb); }
  }
}
