/** Degree-0 persistence and the elder rule. */
module ElderRule {
  // The reduction of the vertex-edge matrix against Kruskal and connected components: an edge's column
  // survives exactly when Kruskal accepts the edge, and its pivot is the younger of the two
  // components it merges.

  import opened Z2
  import opened Pairing
  import opened Graph
  import opened Forest
  import Components

  /** No edge is a loop, as in the edge list of a simplicial complex. */
  ghost predicate Proper(es: seq<Edge>) {
    forall k :: 0 <= k < |es| ==> es[k].0 != es[k].1
  }

  /** The mod 2 boundary matrix from edges to vertices. */
  ghost function EdgeColumns(es: seq<Edge>): (d: seq<Col>)
    ensures |d| == |es|
  {
    seq(|es|, j requires 0 <= j < |es| => {es[j].0, es[j].1})
  }

  // ---------- upper bound: walks are sums of columns ----------

  lemma ArcColumn(es: seq<Edge>, j: nat, a: nat, b: nat) returns (i: nat)
    requires Proper(es) && j <= |es| && (a, b) in EdgeArcs(es[..j])
    ensures i < j && EdgeColumns(es)[i] == Xor({a}, {b})
  {
    EdgeArcsMember(es[..j], a, b);
    i :| 0 <= i < j && (es[..j][i] == (a, b) || es[..j][i] == (b, a));
    assert es[i] == es[..j][i];
  }

  /** A walk from u to v over the first j edges adds up to the two end points. */
  lemma {:induction false} WalkSum(es: seq<Edge>, j: nat, p: seq<nat>) returns (comb: set<nat>)
    requires Proper(es) && j <= |es| && IsWalk(EdgeArcs(es[..j]), p)
    ensures Comb(EdgeColumns(es)[..j], comb) == Xor({p[0]}, {p[|p| - 1]})
  {
    hide EdgeArcs, Symmetric;
    var d := EdgeColumns(es)[..j];
    if |p| == 1 {
      comb := {};
      CombNone(d, {});
    } else {
      var q := p[..|p| - 1];
      var before := WalkSum(es, j, q);
      var i := ArcColumn(es, j, p[|p| - 2], p[|p| - 1]);
      CombOne(d, i);
      CombLinear(d, before, {i});
      comb := Xor(before, {i});
      assert Xor(Xor({p[0]}, {p[|p| - 2]}), Xor({p[|p| - 2]}, {p[|p| - 1]})) == Xor({p[0]}, {p[|p| - 1]});
    }
  }

  lemma JoinedSum(es: seq<Edge>, j: nat, u: nat, v: nat) returns (comb: set<nat>)
    requires Proper(es) && j <= |es| && Joined(EdgeArcs(es[..j]), u, v)
    ensures Comb(EdgeColumns(es)[..j], comb) == Xor({u}, {v})
  {
    var p :| WalkBetween(EdgeArcs(es[..j]), p, u, v);
    comb := WalkSum(es, j, p);
  }

  // ---------- lower bound: sums of columns are even on every component ----------

  lemma {:induction false} ParityOfXor(a: set<nat>, b: set<nat>)
    ensures (|Xor(a, b)| + |a| + |b|) % 2 == 0
  {
    var c := a * b;
    assert a == (a - b) + c && b == (b - a) + c;
    assert |a| == |a - b| + |c| && |b| == |b - a| + |c|;
    assert |Xor(a, b)| == |a - b| + |b - a|;
  }

  ghost predicate Odd(s: set<nat>, side: set<nat>) {
    |s * side| % 2 == 1
  }

  lemma OddOfXor(a: set<nat>, b: set<nat>, side: set<nat>)
    ensures Odd(Xor(a, b), side) <==> (Odd(a, side) != Odd(b, side))
  {
    RestrictXor(a, b, side);
    ParityOfXor(a * side, b * side);
    hide Xor;
    ParityCases(|Xor(a, b) * side|, |a * side|, |b * side|);
  }

  lemma RestrictXor(a: set<nat>, b: set<nat>, side: set<nat>)
    ensures Xor(a, b) * side == Xor(a * side, b * side)
  {
  }

  lemma ParityCases(x: nat, y: nat, z: nat)
    requires (x + y + z) % 2 == 0
    ensures x % 2 == 1 <==> ((y % 2 == 1) != (z % 2 == 1))
  {
  }

  lemma OddPair(a: nat, b: nat, side: set<nat>)
    requires a != b
    ensures Odd({a, b}, side) <==> ((a in side) != (b in side))
  {
    assert {a, b} * side == (if a in side then {a} else {}) + (if b in side then {b} else {});
  }

  /** Combinations of edges that do not cross the side meet it evenly. */
  lemma {:induction false} EvenOnSide(es: seq<Edge>, j: nat, comb: set<nat>, side: set<nat>)
    requires Proper(es) && j <= |es|
    requires forall k :: 0 <= k < j ==> (es[k].0 in side <==> es[k].1 in side)
    ensures !Odd(Comb(EdgeColumns(es)[..j], comb), side)
  {
    hide Odd;
    NothingEven(side);
    if j > 0 {
      EvenOnSide(es, j - 1, comb, side);
      OddPair(es[j - 1].0, es[j - 1].1, side);
      CombSnoc(EdgeColumns(es), j - 1, comb);
      hide Comb, Xor;
      OddOfXor(Comb(EdgeColumns(es)[..j - 1], comb), EdgeColumns(es)[j - 1], side);
    }
  }

  lemma NothingEven(side: set<nat>)
    ensures !Odd({}, side)
  {
    assert {} * side == {};
  }

  ghost function Component(g: Arcs, n: nat, u: nat): (c: set<nat>) {
    set x: nat | x < n && Joined(g, x, u)
  }

  lemma ComponentClosed(es: seq<Edge>, n: nat, j: nat, u: nat)
    requires InRange(es, n) && j <= |es|
    ensures var side := Component(EdgeArcs(es[..j]), n, u);
            forall k :: 0 <= k < j ==> (es[k].0 in side <==> es[k].1 in side)
  {
    var g := EdgeArcs(es[..j]);
    forall k | 0 <= k < j ensures Joined(g, es[k].0, u) <==> Joined(g, es[k].1, u) {
      assert es[..j][k] == es[k];
      EdgeArcsMember(es[..j], es[k].0, es[k].1);
      EdgeArcsMember(es[..j], es[k].1, es[k].0);
      JoinedArc(g, es[k].0, es[k].1);
      JoinedArc(g, es[k].1, es[k].0);
      if Joined(g, es[k].0, u) { JoinedTrans(g, es[k].1, es[k].0, u); }
      if Joined(g, es[k].1, u) { JoinedTrans(g, es[k].0, es[k].1, u); }
    }
  }

  /** Whatever is added to the column of an edge between two components, it keeps a vertex in the
      component of w, an end point of the edge. */
  lemma MeetsComponent(es: seq<Edge>, n: nat, j: nat, comb: set<nat>, w: nat)
    requires InRange(es, n) && Proper(es) && j < |es| && Merges(es, j)
    requires w == es[j].0 || w == es[j].1
    ensures Low(Xor(EdgeColumns(es)[j], Comb(EdgeColumns(es)[..j], comb))) >= Least(EdgeArcs(es[..j]), w)
  {
    OddOnComponent(es, n, j, comb, w);
    var side := Component(EdgeArcs(es[..j]), n, w);
    hide Joined, EdgeArcs, Symmetric, Comb, Merges, Xor;
    var x := OddMeets(Xor(EdgeColumns(es)[j], Comb(EdgeColumns(es)[..j], comb)), side);
  }

  lemma OddMeets(s: set<nat>, side: set<nat>) returns (x: nat)
    requires Odd(s, side)
    ensures x in s && x in side
  {
    x :| x in s * side;
  }

  lemma OddOnComponent(es: seq<Edge>, n: nat, j: nat, comb: set<nat>, w: nat)
    requires InRange(es, n) && Proper(es) && j < |es| && Merges(es, j)
    requires w == es[j].0 || w == es[j].1
    ensures Odd(Xor(EdgeColumns(es)[j], Comb(EdgeColumns(es)[..j], comb)), Component(EdgeArcs(es[..j]), n, w))
  {
    var side := Component(EdgeArcs(es[..j]), n, w);
    hide Joined, EdgeArcs, Symmetric, Comb, Xor, Component, Odd;
    ComponentClosed(es, n, j, w);
    EvenOnSide(es, j, comb, side);
    OneEndInside(es, n, j, w);
    OddPair(es[j].0, es[j].1, side);
    OddOfXor(EdgeColumns(es)[j], Comb(EdgeColumns(es)[..j], comb), side);
  }

  lemma OneEndInside(es: seq<Edge>, n: nat, j: nat, w: nat)
    requires InRange(es, n) && j < |es| && Merges(es, j)
    requires w == es[j].0 || w == es[j].1
    ensures var side := Component(EdgeArcs(es[..j]), n, w); (es[j].0 in side) != (es[j].1 in side)
  {
    var g := EdgeArcs(es[..j]);
    JoinedRefl(g, w);
    if w == es[j].0 && Joined(g, es[j].1, w) { JoinedSym(g, es[j].1, w); }
  }

  // ---------- the elder rule ----------

  lemma MergingPivot(es: seq<Edge>, n: nat, j: nat)
    requires InRange(es, n) && Proper(es) && j < |es| && Merges(es, j)
    ensures IsPivot(EdgeColumns(es), j, Younger(EdgeArcs(es[..j]), es[j].0, es[j].1))
  {
    var d, g := EdgeColumns(es), EdgeArcs(es[..j]);
    var u, v := es[j].0, es[j].1;
    var a, b := Least(g, u), Least(g, v);
    var cu := JoinedSum(es, j, a, u);
    var cv := JoinedSum(es, j, b, v);
    CombLinear(d[..j], cu, cv);
    JoinedIffSameLeast(g, u, v);
    var lowest := Xor(d[j], Comb(d[..j], Xor(cu, cv)));
    assert lowest == {a, b} by {
      assert d[j] == Xor({u}, {v});
      assert Xor(Xor({u}, {v}), Xor(Xor({a}, {u}), Xor({b}, {v}))) == Xor({a}, {b});
    }
    assert InCoset(d, j, lowest) && Low(lowest) == Younger(g, u, v);
    forall w | InCoset(d, j, w) ensures Younger(g, u, v) <= Low(w) {
      var comb :| w == Xor(d[j], Comb(d[..j], comb));
      MeetsComponent(es, n, j, comb, u);
      MeetsComponent(es, n, j, comb, v);
    }
  }

  lemma RedundantPivot(es: seq<Edge>, j: nat)
    requires Proper(es) && j < |es| && !Merges(es, j)
    ensures IsPivot(EdgeColumns(es), j, -1)
  {
    var d := EdgeColumns(es);
    var comb := JoinedSum(es, j, es[j].0, es[j].1);
    assert Xor(d[j], Comb(d[..j], comb)) == {};
    assert InCoset(d, j, {});
  }

  /** Column j reduces to something nonzero exactly when Kruskal accepts edge j, and then its
      pivot is the larger of the least vertices of the two components that edge j merges. */
  lemma ElderRule(es: seq<Edge>, n: nat, pivots: seq<int>, j: nat)
    requires InRange(es, n) && Proper(es) && PivotVector(EdgeColumns(es), pivots) && j < |es|
    ensures j in GreedySet(es, |es|) <==> pivots[j] >= 0
    ensures pivots[j] >= 0 ==> pivots[j] == Younger(EdgeArcs(es[..j]), es[j].0, es[j].1)
    ensures pivots[j] < 0 ==> pivots[j] == -1 && Joined(EdgeArcs(es[..j]), es[j].0, es[j].1)
  {
    var d := EdgeColumns(es);
    GreedyMembers(es, |es|);
    assert IsPivot(d, j, pivots[j]);
    if Merges(es, j) {
      MergingPivot(es, n, j);
      PivotUnique(d, j, pivots[j], Younger(EdgeArcs(es[..j]), es[j].0, es[j].1));
    } else {
      RedundantPivot(es, j);
      PivotUnique(d, j, pivots[j], -1);
    }
  }

  lemma PivotUnique(d: seq<Col>, j: nat, p: int, q: int)
    requires j < |d| && IsPivot(d, j, p) && IsPivot(d, j, q)
    ensures p == q
  {
  }

  /** The rows that hold a pivot after k columns. */
  ghost function PivotRows(pivots: seq<int>, k: nat): (rows: set<nat>)
    requires k <= |pivots|
  {
    set j | 0 <= j < k && pivots[j] >= 0 :: pivots[j] as nat
  }

  lemma PivotRowsSnoc(pivots: seq<int>, k: nat)
    requires k < |pivots|
    ensures pivots[k] < 0 ==> PivotRows(pivots, k + 1) == PivotRows(pivots, k)
    ensures pivots[k] >= 0 ==> PivotRows(pivots, k + 1) == PivotRows(pivots, k) + {pivots[k]}
  {
  }

  lemma LeadersBelow(g: Arcs, n: nat)
    ensures Leaders(g, n) <= Below(n)
  {
  }

  /** Edge k moves one vertex from the leaders to the pivot rows, or changes neither. */
  lemma RetireStep(es: seq<Edge>, n: nat, pivots: seq<int>, k: nat)
    requires InRange(es, n) && Proper(es) && PivotVector(EdgeColumns(es), pivots)
    requires |pivots| == |es| > k
    ensures var before := Leaders(EdgeArcs(es[..k]), n); var after := Leaders(EdgeArcs(es[..k + 1]), n);
            if pivots[k] >= 0 then pivots[k] in before && after == before - {pivots[k]} else after == before
  {
    hide PivotVector, Leaders, EdgeArcs, Younger, Greedy, Least, Symmetric;
    ElderRule(es, n, pivots, k);
    GreedyMembers(es, |es|);
    EdgeArcsSnoc(es, k);
    if pivots[k] >= 0 {
      MergeRetiresYounger(EdgeArcs(es[..k]), n, es[k].0, es[k].1);
    } else {
      RedundantKeepsLeaders(EdgeArcs(es[..k]), n, es[k].0, es[k].1);
    }
  }

  lemma MoveAcross(all: set<nat>, s: set<nat>, x: nat)
    requires s <= all && x in s
    ensures all - (s - {x}) == (all - s) + {x}
  {
  }

  lemma RetireRow(es: seq<Edge>, n: nat, pivots: seq<int>, k: nat)
    requires InRange(es, n) && Proper(es) && PivotVector(EdgeColumns(es), pivots)
    requires |pivots| == |es| > k
    requires PivotRows(pivots, k) == Below(n) - Leaders(EdgeArcs(es[..k]), n)
    ensures PivotRows(pivots, k + 1) == Below(n) - Leaders(EdgeArcs(es[..k + 1]), n)
  {
    hide PivotVector, Leaders, EdgeArcs, PivotRows, Proper, InRange, EdgeColumns;
    RetireStep(es, n, pivots, k);
    PivotRowsSnoc(pivots, k);
    LeadersBelow(EdgeArcs(es[..k]), n);
    if pivots[k] >= 0 {
      MoveAcross(Below(n), Leaders(EdgeArcs(es[..k]), n), pivots[k]);
    }
  }

  /** The pivot rows are exactly the vertices that are not the least of their component. */
  lemma {:induction false} PivotRowsAreRetired(es: seq<Edge>, n: nat, pivots: seq<int>, k: nat)
    requires InRange(es, n) && Proper(es) && PivotVector(EdgeColumns(es), pivots)
    requires |pivots| == |es| >= k
    ensures PivotRows(pivots, k) == Below(n) - Leaders(EdgeArcs(es[..k]), n)
  {
    hide PivotVector, Leaders, Proper, InRange, EdgeColumns, EdgeArcs;
    if k == 0 {
      NoEdgesYet(es, n);
    } else {
      PivotRowsAreRetired(es, n, pivots, k - 1);
      RetireRow(es, n, pivots, k - 1);
    }
  }

  /** Vertices minus pivots equals the number of component labels. */
  lemma PivotsCountComponents(es: seq<Edge>, n: nat, pivots: seq<int>, labels: seq<nat>, c: nat)
    requires InRange(es, n) && Proper(es) && PivotVector(EdgeColumns(es), pivots)
    requires Components.Labels(EdgeArcs(es), n, labels) && Components.Dense(labels, c)
    ensures n - |PivotRows(pivots, |es|)| == c
    ensures |PivotRows(pivots, |es|)| == |Greedy(es, |es|)|
  {
    PivotRowsAreRetired(es, n, pivots, |es|);
    assert es[..|es|] == es;
    Components.LabelCount(EdgeArcs(es), n, labels, c);
    GreedyCount(es, n, |es|);
    var leaders := Leaders(EdgeArcs(es), n);
    LeadersBelow(EdgeArcs(es), n);
    assert Below(n) == (Below(n) - leaders) + leaders;
  }
}
