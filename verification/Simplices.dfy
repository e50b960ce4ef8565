/** Vietoris-Rips simplices: exact enumeration of the cliques of a threshold graph. */
module Simplices {
  import opened Wrappers
  import opened Sorting

  type Simplex = seq<nat>

  /** The points and the threshold: (i, j) is near when its distance is within the threshold. */
  datatype Cloud = Cloud(n: nat, dist: (nat, nat) -> real, threshold: real) {
    predicate Near(i: nat, j: nat) {
      dist(i, j) <= threshold
    }
  }

  /** The d-simplices: strictly increasing cliques of d + 1 points. */
  ghost predicate IsSimplex(c: Cloud, d: nat, s: Simplex) {
    && |s| == d + 1 && Increasing(s)
    && (forall i :: 0 <= i < |s| ==> s[i] < c.n)
    && forall i, j :: 0 <= i < j < |s| ==> c.Near(s[i], s[j])
  }

  ghost predicate LexLt(a: Simplex, b: Simplex) {
    && a != [] && b != []
    && (a[0] < b[0] || (a[0] == b[0] && LexLt(a[1..], b[1..])))
  }

  ghost predicate SortedLex(list: seq<Simplex>) {
    forall i, j :: 0 <= i < j < |list| ==> LexLt(list[i], list[j])
  }

  /** list holds every d-simplex once, in lexicographic order. */
  ghost predicate IsLevel(c: Cloud, d: nat, list: seq<Simplex>) {
    SortedLex(list) && forall s :: s in list <==> IsSimplex(c, d, s)
  }

  // ---------- lexicographic order ----------

  lemma {:induction false} LexIrreflexive(a: Simplex)
    ensures !LexLt(a, a)
  {
    if a != [] { LexIrreflexive(a[1..]); }
  }

  lemma {:induction false} LexAsymmetric(a: Simplex, b: Simplex)
    requires LexLt(a, b)
    ensures !LexLt(b, a)
  {
    if a[0] == b[0] { LexAsymmetric(a[1..], b[1..]); }
  }

  /** Extending two different simplices keeps their order. */
  lemma {:induction false} LexExtend(a: Simplex, b: Simplex, x: nat, y: nat)
    requires LexLt(a, b)
    ensures LexLt(a + [x], b + [y])
  {
    assert (a + [x])[1..] == a[1..] + [x] && (b + [y])[1..] == b[1..] + [y];
    if a[0] == b[0] { LexExtend(a[1..], b[1..], x, y); }
  }

  /** Extending one simplex twice orders by the new vertex. */
  lemma {:induction false} LexLast(a: Simplex, x: nat, y: nat)
    requires x < y
    ensures LexLt(a + [x], a + [y])
  {
    if a != [] {
      assert (a + [x])[1..] == a[1..] + [x] && (a + [y])[1..] == a[1..] + [y];
      LexLast(a[1..], x, y);
    }
  }

  /** A lexicographically ordered list is determined by its members. */
  lemma {:induction false} SortedLexUnique(a: seq<Simplex>, b: seq<Simplex>)
    requires SortedLex(a) && SortedLex(b) && forall s :: s in a <==> s in b
    ensures a == b
  {
    if b != [] { NotEmpty(a, b); }
    if a != [] {
      NotEmpty(b, a);
      SameFirst(a, b);
      forall s ensures s in a[1..] <==> s in b[1..] {
        TailMembers(a, s);
        TailMembers(b, s);
      }
      SortedLexUnique(a[1..], b[1..]);
    }
  }

  lemma NotEmpty(a: seq<Simplex>, b: seq<Simplex>)
    requires b != [] && forall s :: s in b ==> s in a
    ensures a != [] && b[0] in a
  {
    assert b[0] in b;
  }

  lemma SameFirst(a: seq<Simplex>, b: seq<Simplex>)
    requires SortedLex(a) && SortedLex(b) && a != [] && b != []
    requires a[0] in b && b[0] in a
    ensures a[0] == b[0]
  {
    var i :| 0 <= i < |b| && b[i] == a[0];
    var j :| 0 <= j < |a| && a[j] == b[0];
    if i > 0 && j > 0 { LexAsymmetric(a[0], a[j]); }
  }

  lemma TailMembers(a: seq<Simplex>, s: Simplex)
    requires SortedLex(a) && a != []
    ensures s in a[1..] <==> s in a && s != a[0]
  {
    LexIrreflexive(a[0]);
    assert a == [a[0]] + a[1..];
  }

  lemma LevelUnique(c: Cloud, d: nat, a: seq<Simplex>, b: seq<Simplex>)
    requires IsLevel(c, d, a) && IsLevel(c, d, b)
    ensures a == b
  {
    SortedLexUnique(a, b);
  }

  // ---------- vertices and edges ----------

  method Vertices(n: nat) returns (list: seq<Simplex>)
    ensures SortedLex(list) && forall s :: s in list <==> |s| == 1 && s[0] < n
  {
    list := [];
    for i := 0 to n
      invariant |list| == i && forall k :: 0 <= k < i ==> list[k] == [k]
    {
      list := list + [[i]];
    }
    forall s ensures s in list <==> |s| == 1 && s[0] < n {
      if |s| == 1 && s[0] < n { assert list[s[0]] == s; }
    }
  }

  /** The edges found so far: all those before (i, j) in row order. */
  ghost predicate EdgesBefore(c: Cloud, list: seq<Simplex>, i: nat, j: nat) {
    && SortedLex(list)
    && forall s :: s in list <==> IsSimplex(c, 1, s) && (s[0] < i || (s[0] == i && s[1] < j))
  }

  lemma EdgesNext(c: Cloud, list: seq<Simplex>, i: nat, j: nat)
    requires i < j < c.n && EdgesBefore(c, list, i, j)
    ensures EdgesBefore(c, if c.Near(i, j) then list + [[i, j]] else list, i, j + 1)
  {
    if c.Near(i, j) {
      var longer := list + [[i, j]];
      forall k | 0 <= k < |list| ensures LexLt(list[k], [i, j]) {
        assert list[k] in list;
        var s := list[k];
        if s[0] == i { assert LexLt(s[1..], [i, j][1..]); }
      }
      assert IsSimplex(c, 1, [i, j]);
      forall s ensures s in longer <==> IsSimplex(c, 1, s) && (s[0] < i || (s[0] == i && s[1] < j + 1)) {
        if |s| == 2 && s[0] == i && s[1] == j { assert s == [i, j]; }
      }
    } else {
      forall s | |s| == 2 && s[0] == i && s[1] == j ensures !IsSimplex(c, 1, s) {
        assert !c.Near(s[0], s[1]);
      }
    }
  }

  lemma EdgesNextRow(c: Cloud, list: seq<Simplex>, i: nat)
    requires EdgesBefore(c, list, i, c.n)
    ensures EdgesBefore(c, list, i + 1, i + 2)
  {
    forall s ensures IsSimplex(c, 1, s) && (s[0] < i || (s[0] == i && s[1] < c.n))
      <==> IsSimplex(c, 1, s) && (s[0] < i + 1 || (s[0] == i + 1 && s[1] < i + 2))
    {
      if IsSimplex(c, 1, s) { assert s[0] < s[1] < c.n; }
    }
  }

  /** The edge list of the threshold graph, in row order. */
  method VrEdges(c: Cloud) returns (list: seq<Simplex>)
    ensures IsLevel(c, 1, list)
  {
    hide IsSimplex, SortedLex;
    list := [];
    NoEdgesYet(c);
    for i := 0 to c.n
      invariant EdgesBefore(c, list, i, i + 1)
    {
      hide EdgesBefore;
      for j := i + 1 to c.n
        invariant EdgesBefore(c, list, i, j)
      {
        EdgesNext(c, list, i, j);
        if c.Near(i, j) {
          list := list + [[i, j]];
        }
      }
      EdgesNextRow(c, list, i);
    }
    EdgesDone(c, list);
  }

  lemma NoEdgesYet(c: Cloud)
    ensures EdgesBefore(c, [], 0, 1)
  {
    forall s | IsSimplex(c, 1, s) ensures s[0] < s[1] {
    }
  }

  lemma EdgesDone(c: Cloud, list: seq<Simplex>)
    requires EdgesBefore(c, list, c.n, c.n + 1)
    ensures IsLevel(c, 1, list)
  {
    forall s | IsSimplex(c, 1, s) ensures s[0] < c.n {
    }
  }

  // ---------- higher simplices ----------

  /** The symmetric adjacency matrix of an edge list. */
  function Adjacency(edges: seq<Simplex>): (adj: set<(nat, nat)>)
    requires forall k :: 0 <= k < |edges| ==> |edges[k]| == 2
  {
    (set k | 0 <= k < |edges| :: (edges[k][0], edges[k][1])) +
    (set k | 0 <= k < |edges| :: (edges[k][1], edges[k][0]))
  }

  lemma AdjacencyAbove(c: Cloud, edges: seq<Simplex>, v: nat, w: nat)
    requires IsLevel(c, 1, edges) && forall k :: 0 <= k < |edges| ==> |edges[k]| == 2
    requires v < w
    ensures (v, w) in Adjacency(edges) <==> w < c.n && c.Near(v, w)
  {
    if (v, w) in Adjacency(edges) {
      var k :| 0 <= k < |edges| && ((edges[k][0], edges[k][1]) == (v, w) || (edges[k][1], edges[k][0]) == (v, w));
      assert edges[k] in edges;
    }
    if w < c.n && c.Near(v, w) {
      assert IsSimplex(c, 1, [v, w]);
      var k :| 0 <= k < |edges| && edges[k] == [v, w];
      assert (edges[k][0], edges[k][1]) in Adjacency(edges);
    }
  }

  /** w is a common neighbour of all vertices of s, beyond the largest of them. */
  predicate Extends(adj: set<(nat, nat)>, s: Simplex, w: nat) {
    && (forall v :: v in s ==> (v, w) in adj)
    && (forall v :: v in s ==> v < w)
  }

  lemma ExtensionIsSimplex(c: Cloud, edges: seq<Simplex>, d: nat, s: Simplex, w: nat)
    requires IsLevel(c, 1, edges) && (forall k :: 0 <= k < |edges| ==> |edges[k]| == 2)
    requires IsSimplex(c, d, s)
    ensures Extends(Adjacency(edges), s, w) <==> IsSimplex(c, d + 1, s + [w])
  {
    var t := s + [w];
    forall i | 0 <= i < |s| ensures t[i] == s[i] && s[i] in s {
    }
    if Extends(Adjacency(edges), s, w) {
      forall i | 0 <= i < |s| ensures c.Near(s[i], w) && w < c.n && s[i] < w {
        AdjacencyAbove(c, edges, s[i], w);
      }
      assert s[0] in s;
    }
    if IsSimplex(c, d + 1, t) {
      forall v | v in s ensures v < w && (v, w) in Adjacency(edges) {
        var i :| 0 <= i < |s| && s[i] == v;
        assert t[i] < t[|s|] && c.Near(t[i], t[|s|]);
        AdjacencyAbove(c, edges, v, w);
      }
    }
  }

  /** The extensions of the simplices prev[..k], and of prev[k] by vertices below w. */
  ghost predicate ExtendedTo(c: Cloud, d: nat, prev: seq<Simplex>, list: seq<Simplex>, k: nat, w: nat)
    requires k <= |prev|
  {
    && SortedLex(list)
    && forall t :: t in list <==>
         && IsSimplex(c, d + 1, t)
         && (t[..d + 1] in prev[..k] || (k < |prev| && t[..d + 1] == prev[k] && t[d + 1] < w))
  }

  lemma ExtendedNext(c: Cloud, d: nat, prev: seq<Simplex>, list: seq<Simplex>, k: nat, w: nat)
    requires k < |prev| && IsLevel(c, d, prev) && ExtendedTo(c, d, prev, list, k, w)
    ensures var t := prev[k] + [w];
            ExtendedTo(c, d, prev, if IsSimplex(c, d + 1, t) then list + [t] else list, k, w + 1)
  {
    var s, t := prev[k], prev[k] + [w];
    assert s in prev;
    assert t[..d + 1] == s;
    if IsSimplex(c, d + 1, t) {
      forall i | 0 <= i < |list| ensures LexLt(list[i], t) {
        assert list[i] in list;
        LexBefore(c, d, prev, list[i], k, w);
      }
      assert SortedLex(list + [t]);
    }
    var e := d + 1;
    forall u | IsSimplex(c, e, u) && u[..e] == s && u[e] == w ensures u == t {
      assert u == u[..e] + [u[e]];
    }
  }

  lemma LexBefore(c: Cloud, d: nat, prev: seq<Simplex>, u: Simplex, k: nat, w: nat)
    requires k < |prev| && SortedLex(prev) && |u| == d + 2
    requires u[..d + 1] in prev[..k] || (u[..d + 1] == prev[k] && u[d + 1] < w)
    ensures LexLt(u, prev[k] + [w])
  {
    assert u == u[..d + 1] + [u[d + 1]];
    if u[..d + 1] in prev[..k] {
      var i :| 0 <= i < k && prev[i] == u[..d + 1];
      LexExtend(prev[i], prev[k], u[d + 1], w);
    } else {
      LexLast(prev[k], u[d + 1], w);
    }
  }

  lemma ExtendedNextSimplex(c: Cloud, d: nat, prev: seq<Simplex>, list: seq<Simplex>, k: nat)
    requires k < |prev| && ExtendedTo(c, d, prev, list, k, c.n)
    ensures ExtendedTo(c, d, prev, list, k + 1, 0)
  {
    assert prev[..k + 1] == prev[..k] + [prev[k]];
  }

  lemma NothingExtended(c: Cloud, d: nat, prev: seq<Simplex>)
    ensures ExtendedTo(c, d, prev, [], 0, 0)
  {
  }

  /** Every simplex of the next dimension extends its first d + 1 vertices. */
  lemma AllExtended(c: Cloud, d: nat, prev: seq<Simplex>, list: seq<Simplex>)
    requires IsLevel(c, d, prev) && ExtendedTo(c, d, prev, list, |prev|, 0)
    ensures IsLevel(c, d + 1, list)
  {
    assert prev[..|prev|] == prev;
    var e := d + 1;
    forall t | IsSimplex(c, e, t) ensures t[..e] in prev {
      PrefixIsSimplex(c, d, t);
    }
  }

  lemma PrefixIsSimplex(c: Cloud, d: nat, t: Simplex)
    requires IsSimplex(c, d + 1, t)
    ensures IsSimplex(c, d, t[..d + 1])
  {
  }

  method NextLevel(c: Cloud, edges: seq<Simplex>, prev: seq<Simplex>, ghost d: nat) returns (higher: seq<Simplex>)
    requires IsLevel(c, 1, edges) && (forall k :: 0 <= k < |edges| ==> |edges[k]| == 2)
    requires IsLevel(c, d, prev)
    ensures IsLevel(c, d + 1, higher)
  {
    hide IsSimplex, SortedLex, ExtendedTo, Extends, Adjacency;
    var adj := Adjacency(edges);
    higher := [];
    NothingExtended(c, d, prev);
    for k := 0 to |prev|
      invariant ExtendedTo(c, d, prev, higher, k, 0)
    {
      assert prev[k] in prev;
      for w := 0 to c.n
        invariant ExtendedTo(c, d, prev, higher, k, w)
      {
        ExtensionIsSimplex(c, edges, d, prev[k], w);
        ExtendedNext(c, d, prev, higher, k, w);
        if Extends(adj, prev[k], w) {
          higher := higher + [prev[k] + [w]];
        }
      }
      ExtendedNextSimplex(c, d, prev, higher, k);
    }
    AllExtended(c, d, prev, higher);
  }

  /** levels[d] is the exact list of d-simplices, and every dimension up to maxDim without a
      list has no simplex. */
  ghost predicate IsComplexUpTo(c: Cloud, levels: seq<seq<Simplex>>, maxDim: int) {
    && 1 <= |levels| <= maxDim + 1
    && (forall d :: 0 <= d < |levels| ==> IsLevel(c, d, levels[d]))
    && forall d: nat, s :: |levels| <= d <= maxDim ==> !IsSimplex(c, d, s)
  }

  /** No simplex of one dimension, none above it. */
  lemma {:induction false} EmptyAbove(c: Cloud, d: nat, e: nat, s: Simplex)
    requires d <= e && IsSimplex(c, e, s)
    ensures exists t :: IsSimplex(c, d, t)
  {
    if d < e {
      PrefixIsSimplex(c, e - 1, s);
      EmptyAbove(c, d, e - 1, s[..e]);
    }
  }

  lemma StopsEmpty(c: Cloud, levels: seq<seq<Simplex>>, d: nat, maxDim: int)
    requires IsLevel(c, d, [])
    ensures forall e: nat, s :: d <= e <= maxDim ==> !IsSimplex(c, e, s)
  {
    forall e: nat, s | d <= e <= maxDim ensures !IsSimplex(c, e, s) {
      if IsSimplex(c, e, s) { EmptyAbove(c, d, e, s); }
    }
  }

  method EnumerateSimplices(c: Cloud, maxDim: int) returns (r: Result<seq<seq<Simplex>>>)
    ensures c.threshold < 0.0 ==> r == Failure(NegativeDistance)
    ensures c.threshold >= 0.0 && maxDim < 0 ==> r == Failure(NegativeDimension)
    ensures c.threshold >= 0.0 && maxDim >= 0 ==> r.Success? && IsComplexUpTo(c, r.value, maxDim)
    ensures r.Success? && maxDim >= 1 ==> |r.value| >= 2
    ensures r.Success? ==> forall d :: 2 <= d < |r.value| ==> r.value[d] != []
  {
    if c.threshold < 0.0 { return Failure(NegativeDistance); }
    if maxDim < 0 { return Failure(NegativeDimension); }
    var vertices := Vertices(c.n);
    VertexLevel(c, vertices);
    var levels := [vertices];
    if maxDim <= 0 { return Success(levels); }
    var edges := VrEdges(c);
    EdgeLengths(c, edges);
    levels := levels + [edges];
    hide IsLevel, IsSimplex;
    if |edges| == 0 {
      StopsEmpty(c, levels, 1, maxDim);
      return Success(levels);
    }
    for dim := 2 to maxDim + 1
      invariant |levels| == dim && levels[1] == edges
      invariant forall d :: 2 <= d < |levels| ==> levels[d] != []
      invariant forall d :: 0 <= d < |levels| ==> IsLevel(c, d, levels[d])
    {
      var higher := NextLevel(c, edges, levels[dim - 1], dim - 1);
      if |higher| > 0 {
        levels := levels + [higher];
      } else {
        StopsEmpty(c, levels, dim, maxDim);
        return Success(levels);
      }
    }
    r := Success(levels);
  }

  lemma VertexLevel(c: Cloud, list: seq<Simplex>)
    requires SortedLex(list) && forall s :: s in list <==> |s| == 1 && s[0] < c.n
    ensures IsLevel(c, 0, list)
  {
  }

  lemma EdgeLengths(c: Cloud, edges: seq<Simplex>)
    requires IsLevel(c, 1, edges)
    ensures forall k :: 0 <= k < |edges| ==> |edges[k]| == 2
  {
    forall k | 0 <= k < |edges| ensures |edges[k]| == 2 {
      assert edges[k] in edges;
    }
  }

  // ---------- faces ----------

  /** s without its i-th vertex. */
  function Remove(s: Simplex, i: nat): (f: Simplex)
    requires i < |s|
    ensures |f| == |s| - 1
  {
    s[..i] + s[i + 1..]
  }

  lemma FaceIsSimplex(c: Cloud, d: nat, s: Simplex, i: nat)
    requires IsSimplex(c, d + 1, s) && i < |s|
    ensures IsSimplex(c, d, Remove(s, i))
  {
  }

  /** The enumerated complex is closed under faces. */
  lemma FacesEnumerated(c: Cloud, levels: seq<seq<Simplex>>, maxDim: int, d: nat, k: nat, i: nat)
    requires IsComplexUpTo(c, levels, maxDim) && 0 < d < |levels| && k < |levels[d]|
    requires i <= d
    ensures |levels[d][k]| == d + 1 && Remove(levels[d][k], i) in levels[d - 1]
  {
    var s := levels[d][k];
    assert IsLevel(c, d, levels[d]) && s in levels[d];
    assert IsLevel(c, d - 1, levels[d - 1]);
    FaceIsSimplex(c, d - 1, s, i);
  }
}
