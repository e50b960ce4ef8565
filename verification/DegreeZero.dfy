/** The whole degree-0 diagram. */
module DegreeZero {
  // With edges in ascending order the reported deaths say how many components the threshold graph
  // has at every threshold, not only at the last one.

  import opened Wrappers
  import opened Pairing
  import opened Sorting
  import opened Graph
  import opened Simplices
  import opened ChainComplex
  import opened Filtration
  import opened BettiZero
  import Boundary
  import ColumnReduction
  import ElderRule
  import SingleLinkage

  // ---------- counting deaths ----------

  ghost function DeadBy(pairs: seq<ColumnReduction.Pair>, t: real): nat {
    if pairs == [] then 0
    else
      var last := |pairs| - 1;
      DeadBy(pairs[..last], t) + if pairs[last].death <= t then 1 else 0
  }

  /** The values up to t are the first k. */
  ghost predicate Cut(death: seq<real>, t: real, k: nat) {
    k <= |death| && forall j :: 0 <= j < |death| ==> (death[j] <= t <==> j < k)
  }

  lemma {:induction false} CutExists(death: seq<real>, t: real) returns (k: nat)
    requires forall i, j :: 0 <= i < j < |death| ==> death[i] <= death[j]
    ensures Cut(death, t, k)
  {
    if death == [] || death[|death| - 1] <= t {
      k := |death|;
    } else {
      k := CutExists(death[..|death| - 1], t);
    }
  }

  lemma DeadStep(pivots: seq<int>, n: nat, death: seq<real>, rowValues: Option<seq<real>>, t: real)
    requires 0 < n <= |pivots| == |death|
    ensures DeadBy(ColumnReduction.PairsOf(pivots, n, death, rowValues), t) ==
            DeadBy(ColumnReduction.PairsOf(pivots, n - 1, death, rowValues), t)
              + if pivots[n - 1] >= 0 && death[n - 1] <= t then 1 else 0
  {
    var rest := ColumnReduction.PairsOf(pivots, n - 1, death, rowValues);
    var pairs := ColumnReduction.PairsOf(pivots, n, death, rowValues);
    assert pivots[n - 1] >= 0 ==> pairs[..|pairs| - 1] == rest && pairs[|pairs| - 1].death == death[n - 1];
  }

  lemma NoDeaths(pivots: seq<int>, death: seq<real>, rowValues: Option<seq<real>>, t: real)
    ensures DeadBy(ColumnReduction.PairsOf(pivots, 0, death, rowValues), t) == 0
  {
  }

  /** One death up to t for each killer among the first k columns. */
  lemma {:induction false} DeadByKillers(pivots: seq<int>, n: nat, death: seq<real>, rowValues: Option<seq<real>>,
      t: real, k: nat)
    requires n <= |pivots| == |death| && Cut(death, t, k)
    ensures DeadBy(ColumnReduction.PairsOf(pivots, n, death, rowValues), t)
         == |Killers(pivots[..if n <= k then n else k])|
  {
    hide Killers, DeadBy, ColumnReduction.PairsOf;
    if n == 0 {
      NoDeaths(pivots, death, rowValues, t);
      NoKillers();
      assert pivots[..0] == [];
    } else {
      DeadByKillers(pivots, n - 1, death, rowValues, t, k);
      DeadStep(pivots, n, death, rowValues, t);
      if n <= k {
        assert pivots[..n] == pivots[..n - 1] + [pivots[n - 1]];
        KillersSnoc(pivots[..n - 1], pivots[n - 1]);
      }
    }
  }

  // ---------- the ordered edges ----------

  /** The edge list of the complex in filtration order. */
  ghost function OrderedEdges(edges: seq<Simplex>, order: seq<nat>): (es: seq<Edge>)
    requires forall k :: 0 <= k < |order| ==> order[k] < |edges|
    requires forall k :: 0 <= k < |edges| ==> |edges[k]| == 2
    ensures |es| == |order|
  {
    seq(|order|, k requires 0 <= k < |order| => (edges[order[k]][0], edges[order[k]][1]))
  }

  lemma OrderedMatrix(c: Cloud, levels: seq<seq<Simplex>>, order: seq<nat>)
    requires |levels| > 1 && IsLevel(c, 0, levels[0]) && IsLevel(c, 1, levels[1])
    requires forall k :: 0 <= k < |order| ==> order[k] < |levels[1]|
    ensures forall k :: 0 <= k < |levels[1]| ==> |levels[1][k]| == 2
    ensures var es := OrderedEdges(levels[1], order);
            && OrderedColumns(levels, 1, order) == ElderRule.EdgeColumns(es)
            && InRange(es, c.n) && ElderRule.Proper(es)
  {
    EdgeLengths(c, levels[1]);
    VertexRows(c, levels[0]);
    forall k | 0 <= k < |order|
      ensures var s := levels[1][order[k]]; Boundary.FaceRows(levels[0], s) == {s[0], s[1]} && s[0] < s[1] < c.n
    {
      assert levels[1][order[k]] in levels[1];
      EdgeColumn(c, levels[1][order[k]]);
    }
  }

  lemma EdgeValue(c: Cloud, edges: seq<Simplex>, lengths: seq<real>, k: nat)
    requires IsLevel(c, 1, edges) && Filtered(c, edges, lengths) && k < |edges|
    ensures |edges[k]| == 2 && edges[k][0] < edges[k][1] < c.n
    ensures lengths[k] == c.dist(edges[k][0], edges[k][1]) <= c.threshold
  {
    assert edges[k] in edges;
    assert IsLongestEdge(c, edges[k], lengths[k]);
  }

  /** A close pair is listed among the edges up to length t. */
  lemma ClosePairListed(c: Cloud, edges: seq<Simplex>, lengths: seq<real>, order: seq<nat>, t: real, k: nat,
      a: nat, b: nat)
    returns (l: nat)
    requires IsLevel(c, 1, edges) && Filtered(c, edges, lengths) && IsArgsort(order, lengths)
    requires t <= c.threshold && Cut(OrderedValues(lengths, order), t, k)
    requires a < b < c.n && c.dist(a, b) <= t
    ensures l < k && edges[order[l]] == [a, b]
  {
    assert IsSimplex(c, 1, [a, b]) && [a, b] in edges;
    var m: nat :| m < |edges| && edges[m] == [a, b];
    EdgeValue(c, edges, lengths, m);
    assert m in order;
    l :| 0 <= l < |order| && order[l] == m;
    assert OrderedValues(lengths, order)[l] <= t;
  }

  lemma ListedPairClose(c: Cloud, edges: seq<Simplex>, lengths: seq<real>, order: seq<nat>, t: real, k: nat, l: nat)
    requires IsLevel(c, 1, edges) && Filtered(c, edges, lengths) && IsArgsort(order, lengths)
    requires Cut(OrderedValues(lengths, order), t, k) && l < k
    ensures |edges[order[l]]| == 2
    ensures edges[order[l]][0] < edges[order[l]][1] < c.n && c.dist(edges[order[l]][0], edges[order[l]][1]) <= t
  {
    EdgeValue(c, edges, lengths, order[l]);
    assert OrderedValues(lengths, order)[l] <= t;
  }

  /** The edges up to length t are the threshold graph at t. */
  lemma OrderedGraph(c: Cloud, edges: seq<Simplex>, lengths: seq<real>, order: seq<nat>, t: real, k: nat)
    requires IsLevel(c, 1, edges) && Filtered(c, edges, lengths) && IsArgsort(order, lengths)
    requires t <= c.threshold && Cut(OrderedValues(lengths, order), t, k)
    ensures forall k :: 0 <= k < |edges| ==> |edges[k]| == 2
    ensures EdgeArcs(OrderedEdges(edges, order)[..k]) == SingleLinkage.CloseArcs(c.n, c.dist, t)
  {
    EdgeLengths(c, edges);
    assert k <= |order| == |edges| && forall l :: 0 <= l < |order| ==> order[l] < |edges|;
    hide IsLevel, Filtered, IsArgsort, Cut;
    var es := OrderedEdges(edges, order)[..k];
    forall a: nat, b: nat ensures (a, b) in es <==> a < b < c.n && c.dist(a, b) <= t {
      if (a, b) in es {
        var l :| 0 <= l < k && es[l] == (a, b);
        ListedPairClose(c, edges, lengths, order, t, k, l);
      }
      if a < b < c.n && c.dist(a, b) <= t {
        var l := ClosePairListed(c, edges, lengths, order, t, k, a, b);
        assert es[l] == (a, b);
      }
    }
    forall a: nat, b: nat
      ensures (a, b) in EdgeArcs(es) <==> (a, b) in SingleLinkage.CloseArcs(c.n, c.dist, t)
    {
      EdgeArcsMember(es, a, b);
    }
  }

  /** At every threshold t, points minus reported deaths up to t is the number of components of the
      threshold graph at t. */
  lemma DeathsCountComponents(c: Cloud, levels: seq<seq<Simplex>>, maxDim: int, lengths: seq<real>, order: seq<nat>,
      rowValues: Option<seq<real>>, t: real)
    requires IsComplexUpTo(c, levels, maxDim) && |levels| > 1 && Filtered(c, levels[1], lengths)
    requires IsArgsort(order, lengths) && t <= c.threshold
    ensures var d := OrderedColumns(levels, 1, order);
            var pairs := ColumnReduction.PairsOf(Pivots(d), |d|, OrderedValues(lengths, order), rowValues);
            c.n - DeadBy(pairs, t) == |Leaders(SingleLinkage.CloseArcs(c.n, c.dist, t), c.n)|
  {
    assert IsLevel(c, 0, levels[0]) && IsLevel(c, 1, levels[1]);
    var death := OrderedValues(lengths, order);
    var k := CutExists(death, t);
    assert |order| == |levels[1]| && forall l :: 0 <= l < |order| ==> order[l] < |levels[1]|;
    assert k <= |order|;
    hide IsComplexUpTo, IsLevel, Filtered, IsArgsort, Pivots, PivotVector, InRange, Leaders, Killers, DeadBy;
    hide ElderRule.Proper, ElderRule.EdgeColumns, ColumnReduction.PairsOf, OrderedColumns;
    OrderedMatrix(c, levels, order);
    OrderedGraph(c, levels[1], lengths, order, t, k);
    var d, es := OrderedColumns(levels, 1, order), OrderedEdges(levels[1], order);
    DeadByKillers(Pivots(d), |d|, death, rowValues, t, k);
    RankIsRetired(es, c.n, Pivots(d), k);
  }
}
