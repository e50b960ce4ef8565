/** Betti number zero counts components. */
module BettiZero {
  // The reduction of the boundary matrices of a point cloud and the union-find of single linkage on its
  // threshold graph see the same number.

  import opened Z2
  import opened Pairing
  import opened Graph
  import opened Simplices
  import opened ChainComplex
  import Boundary
  import Components
  import ElderRule
  import SingleLinkage

  function Ends(edges: seq<Simplex>): (es: seq<Edge>)
    requires forall k :: 0 <= k < |edges| ==> |edges[k]| == 2
    ensures |es| == |edges|
  {
    seq(|edges|, k requires 0 <= k < |edges| => (edges[k][0], edges[k][1]))
  }

  /** The vertex list is [0], [1], ... */
  lemma VertexRows(c: Cloud, list: seq<Simplex>)
    requires IsLevel(c, 0, list)
    ensures list == seq(c.n, i => [i])
  {
    var rows: seq<Simplex> := seq(c.n, i => [i]);
    forall s ensures s in rows <==> IsSimplex(c, 0, s) {
      if IsSimplex(c, 0, s) {
        assert rows[s[0]] == s;
      }
    }
    LevelUnique(c, 0, list, rows);
  }

  /** The column of an edge holds its two end points. */
  lemma EdgeColumn(c: Cloud, s: Simplex)
    requires IsSimplex(c, 1, s)
    ensures Boundary.FaceRows(seq(c.n, i => [i]), s) == {s[0], s[1]}
  {
    var rows: seq<Simplex> := seq(c.n, i => [i]);
    forall r: nat | r < c.n ensures Boundary.Incidence(rows[r], s) != 0 <==> r == s[0] || r == s[1] {
      Boundary.IncidenceUnit(rows[r], s, 2);
      assert Remove(s, 0) == [s[1]] && Remove(s, 1) == [s[0]];
    }
  }

  lemma EdgeMatrix(c: Cloud, vertices: seq<Simplex>, edges: seq<Simplex>)
    requires IsLevel(c, 0, vertices) && IsLevel(c, 1, edges)
    ensures forall k :: 0 <= k < |edges| ==> |edges[k]| == 2
    ensures Boundary.FaceMatrix(vertices, edges) == ElderRule.EdgeColumns(Ends(edges))
    ensures InRange(Ends(edges), c.n) && ElderRule.Proper(Ends(edges))
  {
    VertexRows(c, vertices);
    EdgeLengths(c, edges);
    forall k | 0 <= k < |edges|
      ensures Boundary.FaceRows(vertices, edges[k]) == {edges[k][0], edges[k][1]}
      ensures edges[k][0] < edges[k][1] < c.n
    {
      assert edges[k] in edges;
      EdgeColumn(c, edges[k]);
    }
  }

  /** The enumerated edges are the pairs within the threshold. */
  lemma EdgeGraph(c: Cloud, edges: seq<Simplex>)
    requires IsLevel(c, 1, edges)
    ensures forall k :: 0 <= k < |edges| ==> |edges[k]| == 2
    ensures EdgeArcs(Ends(edges)) == SingleLinkage.CloseArcs(c.n, c.dist, c.threshold)
  {
    EdgeLengths(c, edges);
    var es := Ends(edges);
    forall a: nat, b: nat
      ensures (a, b) in es <==> a < b < c.n && c.Near(a, b)
    {
      if (a, b) in es {
        var k :| 0 <= k < |es| && es[k] == (a, b);
        assert edges[k] in edges && edges[k] == [a, b];
      }
      if a < b < c.n && c.Near(a, b) {
        assert IsSimplex(c, 1, [a, b]);
        var k :| 0 <= k < |edges| && edges[k] == [a, b];
        assert es[k] == (a, b);
      }
    }
    forall a: nat, b: nat
      ensures (a, b) in EdgeArcs(es) <==> (a, b) in SingleLinkage.CloseArcs(c.n, c.dist, c.threshold)
    {
      EdgeArcsMember(es, a, b);
    }
  }

  lemma PrefixPivots(d: seq<Col>, pivots: seq<int>, k: nat)
    requires PivotVector(d, pivots) && k <= |pivots|
    ensures ElderRule.PivotRows(pivots, k) == Killed(pivots[..k]) && PairwiseDistinct(pivots[..k])
  {
    PivotsDistinct(d, pivots);
  }

  lemma LeadersAside(g: Arcs, n: nat)
    ensures |Below(n) - Leaders(g, n)| == n - |Leaders(g, n)|
  {
    ElderRule.LeadersBelow(g, n);
    assert Below(n) == (Below(n) - Leaders(g, n)) + Leaders(g, n);
  }

  /** Killers among the first k edges and vertices no longer least in their component are as many. */
  lemma RankIsRetired(es: seq<Edge>, n: nat, pivots: seq<int>, k: nat)
    requires InRange(es, n) && ElderRule.Proper(es) && PivotVector(ElderRule.EdgeColumns(es), pivots)
    requires k <= |es|
    ensures |Killers(pivots[..k])| == n - |Leaders(EdgeArcs(es[..k]), n)|
  {
    ElderRule.PivotRowsAreRetired(es, n, pivots, k);
    PrefixPivots(ElderRule.EdgeColumns(es), pivots, k);
    LeadersAside(EdgeArcs(es[..k]), n);
    hide *;
    KilledSize(pivots[..k]);
  }

  /** In degree 1 the killers and the components add up to the points. */
  lemma EdgeKillers(c: Cloud, levels: seq<seq<Simplex>>, pivots: seq<seq<int>>)
    requires |levels| > 1 && IsLevel(c, 0, levels[0]) && IsLevel(c, 1, levels[1])
    requires AllReduced(Matrices(levels), pivots)
    ensures Rank(pivots, 1) == c.n - |Leaders(SingleLinkage.CloseArcs(c.n, c.dist, c.threshold), c.n)|
  {
    EdgeMatrix(c, levels[0], levels[1]);
    EdgeGraph(c, levels[1]);
    MatrixAt(levels, 1, 0);
    assert PivotVector(Matrices(levels)[1], pivots[1]);
    var es := Ends(levels[1]);
    assert es[..|es|] == es && pivots[1][..|es|] == pivots[1];
    hide IsLevel, Matrices, PivotVector, Leaders, Killers, EdgeArcs;
    RankIsRetired(es, c.n, pivots[1], |es|);
  }

  lemma NoEdgesNoKillers(c: Cloud, pivots: seq<seq<int>>)
    requires IsLevel(c, 1, []) && |pivots| == 1
    ensures Rank(pivots, 1) == c.n - |Leaders(SingleLinkage.CloseArcs(c.n, c.dist, c.threshold), c.n)|
  {
    EdgeGraph(c, []);
    assert Ends([]) == [] && EdgeArcs([]) == {};
    LeadersOfNothing(c.n);
  }

  lemma OnePerLevel(levels: seq<seq<Simplex>>, pivots: seq<seq<int>>)
    requires AllReduced(Matrices(levels), pivots)
    ensures |pivots| == |levels|
  {
  }

  lemma BottomLevels(c: Cloud, levels: seq<seq<Simplex>>, maxDim: int)
    requires IsComplexUpTo(c, levels, maxDim) && maxDim >= 1
    ensures |levels| > 0 && IsLevel(c, 0, levels[0]) && |Matrices(levels)[0]| == c.n
    ensures if |levels| > 1 then IsLevel(c, 1, levels[1]) else IsLevel(c, 1, [])
  {
    VertexRows(c, levels[0]);
  }

  /** Essential vertices are as many as the components of the threshold graph. */
  lemma BettiZeroIsComponents(c: Cloud, levels: seq<seq<Simplex>>, maxDim: int, pivots: seq<seq<int>>)
    requires IsComplexUpTo(c, levels, maxDim) && maxDim >= 1
    requires AllReduced(Matrices(levels), pivots)
    ensures |pivots| > 0
    ensures |Essential(pivots, 0)| == |Leaders(SingleLinkage.CloseArcs(c.n, c.dist, c.threshold), c.n)|
  {
    hide *;
    OnePerLevel(levels, pivots);
    BottomLevels(c, levels, maxDim);
    VietorisRipsIsComplex(c, levels, maxDim);
    BettiCount(Matrices(levels), pivots, 0);
    VerticesKillNothing(Matrices(levels), pivots);
    if |levels| > 1 {
      EdgeKillers(c, levels, pivots);
    } else {
      NoEdgesNoKillers(c, pivots);
    }
  }

  /** The number of dense labels of the threshold graph is the zeroth Betti number. */
  lemma BettiZeroIsLabels(c: Cloud, levels: seq<seq<Simplex>>, maxDim: int, pivots: seq<seq<int>>,
      labels: seq<nat>, count: nat)
    requires IsComplexUpTo(c, levels, maxDim) && maxDim >= 1
    requires AllReduced(Matrices(levels), pivots)
    requires Components.Labels(SingleLinkage.CloseArcs(c.n, c.dist, c.threshold), c.n, labels)
    requires Components.Dense(labels, count)
    ensures |pivots| > 0 && |Essential(pivots, 0)| == count
  {
    BettiZeroIsComponents(c, levels, maxDim, pivots);
    Components.LabelCount(SingleLinkage.CloseArcs(c.n, c.dist, c.threshold), c.n, labels, count);
  }
}
