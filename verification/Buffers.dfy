/** The fixed-buffer enumerations of edges and triangles. */
module Buffers {
  // The buffers hold n choose 2 and n choose 3 rows, are never overrun, and the early return of the
  // triangle loop loses nothing.

  import opened Wrappers
  import opened Simplices
  import opened Sorting

  // ---------- counting increasing tuples ----------

  ghost function Choose(n: nat, k: nat): nat {
    if k == 0 then 1 else if n == 0 then 0 else Choose(n - 1, k) + Choose(n - 1, k - 1)
  }

  /** The strictly increasing k-tuples below n. */
  ghost function Tuples(n: nat, k: nat): set<Simplex> {
    if k == 0 then {[]} else if n == 0 then {}
    else Tuples(n - 1, k) + Appended(Tuples(n - 1, k - 1), n - 1)
  }

  ghost function Appended(ts: set<Simplex>, x: nat): set<Simplex> {
    set t | t in ts :: t + [x]
  }

  lemma {:induction false} AppendedSize(ts: set<Simplex>, x: nat)
    ensures |Appended(ts, x)| == |ts|
  {
    if ts != {} {
      var t :| t in ts;
      AppendedSize(ts - {t}, x);
      assert Appended(ts, x) == Appended(ts - {t}, x) + {t + [x]};
      assert t + [x] !in Appended(ts - {t}, x) by {
        forall s | s in ts - {t} ensures s + [x] != t + [x] {
          assert s == (s + [x])[..|s|] && t == (t + [x])[..|t|];
        }
      }
    }
  }

  lemma TuplesStep(n: nat, k: nat)
    requires n > 0 && k > 0
    ensures Tuples(n, k) == Tuples(n - 1, k) + Appended(Tuples(n - 1, k - 1), n - 1)
    ensures Choose(n, k) == Choose(n - 1, k) + Choose(n - 1, k - 1)
  {
  }

  lemma NoTuples(n: nat, k: nat)
    requires n == 0 || k == 0
    ensures |Tuples(n, k)| == Choose(n, k)
  {
  }

  lemma {:induction false} TuplesSize(n: nat, k: nat)
    ensures |Tuples(n, k)| <= Choose(n, k)
  {
    hide Tuples, Choose, Appended;
    if k > 0 && n > 0 {
      var a, b := Tuples(n - 1, k), Tuples(n - 1, k - 1);
      TuplesSize(n - 1, k);
      TuplesSize(n - 1, k - 1);
      AppendedSize(b, n - 1);
      UnionSize(a, Appended(b, n - 1));
      TuplesStep(n, k);
    } else {
      NoTuples(n, k);
    }
  }

  lemma UnionSize<T>(a: set<T>, b: set<T>)
    ensures |a + b| <= |a| + |b|
  {
    assert a + b == a + (b - a);
    assert |b - a| <= |b| by { assert b == (b - a) + (b * a); }
  }

  lemma {:induction false} TupleMember(n: nat, k: nat, t: Simplex)
    requires |t| == k && Increasing(t) && forall i :: 0 <= i < k ==> t[i] < n
    ensures t in Tuples(n, k)
  {
    if k > 0 {
      if t[k - 1] == n - 1 {
        TupleMember(n - 1, k - 1, t[..k - 1]);
        assert t == t[..k - 1] + [n - 1];
      } else {
        TupleMember(n - 1, k, t);
      }
    }
  }

  lemma {:induction false} ListSize(list: seq<Simplex>, s: set<Simplex>)
    requires SortedLex(list) && forall t :: t in list ==> t in s
    ensures |list| <= |s|
  {
    if list != [] {
      var last := |list| - 1;
      forall t | t in list[..last] ensures t in s - {list[last]} {
        var i :| 0 <= i < last && list[i] == t;
        LexIrreflexive(t);
      }
      ListSize(list[..last], s - {list[last]});
    }
  }

  /** A list of distinct increasing k-tuples below n is no longer than n choose k. */
  lemma TupleListBound(list: seq<Simplex>, n: nat, k: nat)
    requires SortedLex(list)
    requires forall t :: t in list ==> |t| == k && Increasing(t) && forall i :: 0 <= i < k ==> t[i] < n
    ensures |list| <= Choose(n, k)
  {
    forall t | t in list ensures t in Tuples(n, k) {
      TupleMember(n, k, t);
    }
    ListSize(list, Tuples(n, k));
    TuplesSize(n, k);
  }

  lemma {:induction false} ChooseClosed(n: nat)
    ensures Choose(n, 1) == n
    ensures 2 * Choose(n, 2) == n * (n - 1)
    ensures n >= 2 ==> 6 * Choose(n, 3) == n * (n - 1) * (n - 2)
    ensures n < 3 ==> Choose(n, 3) == 0
  {
    if n > 0 {
      ChooseClosed(n - 1);
      assert Choose(n - 1, 0) == 1;
      if n >= 3 { CubeStep(n); }
    }
  }

  lemma CubeStep(n: int)
    ensures n * (n - 1) * (n - 2) == (n - 1) * (n - 2) * (n - 3) + 3 * ((n - 1) * (n - 2))
  {
    var p := (n - 1) * (n - 2);
    assert n * (n - 1) * (n - 2) == n * p;
    assert (n - 1) * (n - 2) * (n - 3) == p * (n - 3);
  }

  // ---------- the edge buffer ----------

  lemma EdgeFits(c: Cloud, list: seq<Simplex>, i: nat, j: nat)
    requires i < j < c.n && EdgesBefore(c, list, i, j)
    ensures c.Near(i, j) ==> |list| < c.n * (c.n - 1) / 2
    ensures |list| <= c.n * (c.n - 1) / 2
  {
    EdgesNext(c, list, i, j);
    TupleListBound(if c.Near(i, j) then list + [[i, j]] else list, c.n, 2);
    ChooseClosed(c.n);
  }

  method VrEdgesBuffered(c: Cloud) returns (r: Result<seq<Simplex>>)
    ensures c.threshold < 0.0 ==> r == Failure(NegativeDistance)
    ensures c.threshold >= 0.0 ==> r.Success? && IsLevel(c, 1, r.value)
  {
    if c.threshold < 0.0 { return Failure(NegativeDistance); }
    hide IsSimplex, SortedLex, EdgesBefore;
    var edges: array<seq<nat>> := new seq<nat>[c.n * (c.n - 1) / 2](_ => []);
    var count := 0;
    NoEdgesYet(c);
    for i := 0 to c.n
      invariant count <= edges.Length && EdgesBefore(c, edges[..count], i, i + 1)
    {
      for j := i + 1 to c.n
        invariant count <= edges.Length && EdgesBefore(c, edges[..count], i, j)
      {
        ghost var list := edges[..count];
        EdgeFits(c, list, i, j);
        EdgesNext(c, list, i, j);
        if c.Near(i, j) {
          edges[count] := [i, j];
          count := count + 1;
          assert edges[..count] == list + [[i, j]];
        }
      }
      EdgesNextRow(c, edges[..count], i);
    }
    EdgesDone(c, edges[..count]);
    r := Success(edges[..count]);
  }

  // ---------- the triangle buffer ----------

  /** Second ends of the edges that start at u, then first ends of those that end at u. */
  function Forward(edges: seq<Simplex>, u: nat): (ws: seq<nat>)
    requires forall k :: 0 <= k < |edges| ==> |edges[k]| == 2
  {
    if edges == [] then []
    else
      var e := edges[|edges| - 1];
      Forward(edges[..|edges| - 1], u) + if e[0] == u then [e[1]] else []
  }

  function Backward(edges: seq<Simplex>, u: nat): (ws: seq<nat>)
    requires forall k :: 0 <= k < |edges| ==> |edges[k]| == 2
  {
    if edges == [] then []
    else
      var e := edges[|edges| - 1];
      Backward(edges[..|edges| - 1], u) + if e[1] == u then [e[0]] else []
  }

  lemma {:induction false} ForwardMembers(edges: seq<Simplex>, u: nat, w: nat)
    requires forall k :: 0 <= k < |edges| ==> |edges[k]| == 2
    ensures w in Forward(edges, u) <==> [u, w] in edges
    ensures w in Backward(edges, u) <==> [w, u] in edges
  {
    if edges != [] {
      var last := |edges| - 1;
      var e := edges[last];
      ForwardMembers(edges[..last], u, w);
      assert edges == edges[..last] + [e];
      assert e == [e[0], e[1]];
    }
  }

  lemma {:induction false} ForwardAscends(edges: seq<Simplex>, u: nat)
    requires SortedLex(edges) && forall k :: 0 <= k < |edges| ==> |edges[k]| == 2
    ensures forall p, q :: 0 <= p < q < |Forward(edges, u)| ==> Forward(edges, u)[p] < Forward(edges, u)[q]
  {
    if edges != [] {
      var last := |edges| - 1;
      var e := edges[last];
      ForwardAscends(edges[..last], u);
      if e[0] == u {
        forall w | w in Forward(edges[..last], u) ensures w < e[1] {
          ForwardMembers(edges[..last], u, w);
          var k :| 0 <= k < last && edges[k] == [u, w];
          assert LexLt(edges[k], e);
          assert LexLt([u, w], e) && [u, w][1..] == [w] && e[1..] == [e[1]];
          var x, y := [w], [e[1]];
          assert LexLt(x, y) && !LexLt(x[1..], y[1..]);
        }
        var rest := Forward(edges[..last], u);
        assert forall p :: 0 <= p < |rest| ==> rest[p] in rest;
        assert Forward(edges, u) == rest + [e[1]];
      }
    }
  }

  /** No extension of prev[k] lies between w and w'. */
  lemma ExtendedSkip(c: Cloud, d: nat, prev: seq<Simplex>, list: seq<Simplex>, k: nat, w: nat, w': nat)
    requires k < |prev| && ExtendedTo(c, d, prev, list, k, w) && w <= w'
    requires |prev[k]| == d + 1
    requires forall x :: w <= x < w' ==> !IsSimplex(c, d + 1, prev[k] + [x])
    ensures ExtendedTo(c, d, prev, list, k, w')
  {
    var e := d + 1;
    forall t | IsSimplex(c, e, t) && t[..e] == prev[k] ensures t[e] < w <==> t[e] < w' {
      assert t == prev[k] + [t[e]];
    }
  }

  /** The triangle on edge k by vertex w, in terms of the edge list. */
  lemma TriangleByEdges(c: Cloud, edges: seq<Simplex>, k: nat, w: nat)
    requires IsLevel(c, 1, edges) && k < |edges| && |edges[k]| == 2
    ensures var u := edges[k][0]; var v := edges[k][1];
            IsSimplex(c, 2, edges[k] + [w]) <==> v < w && [u, w] in edges && [v, w] in edges
  {
    var u, v := edges[k][0], edges[k][1];
    assert edges[k] in edges;
    var t := edges[k] + [w];
    assert t == [u, v, w];
    if IsSimplex(c, 2, t) {
      assert c.Near(t[0], t[2]) && c.Near(t[1], t[2]) && t[1] < t[2];
      assert IsSimplex(c, 1, [u, w]) && IsSimplex(c, 1, [v, w]);
    }
    if v < w && [u, w] in edges && [v, w] in edges {
      assert IsSimplex(c, 1, [u, w]) && IsSimplex(c, 1, [v, w]);
      var a, b := [u, w], [v, w];
      assert c.Near(a[0], a[1]) && c.Near(b[0], b[1]);
    }
  }

  lemma TriangleFits(c: Cloud, edges: seq<Simplex>, list: seq<Simplex>, k: nat, w: nat)
    requires IsLevel(c, 1, edges) && k <= |edges| && ExtendedTo(c, 1, edges, list, k, w)
    ensures |list| <= Choose(c.n, 3)
  {
    TupleListBound(list, c.n, 3);
  }

  /** A list of triangles that fills the buffer is complete. */
  lemma FullIsComplete(c: Cloud, list: seq<Simplex>)
    requires SortedLex(list) && (forall t :: t in list ==> IsSimplex(c, 2, t)) && |list| == Choose(c.n, 3)
    ensures IsLevel(c, 2, list)
  {
    var all := Tuples(c.n, 3);
    forall t | t in list ensures t in all {
      TupleMember(c.n, 3, t);
    }
    forall t | IsSimplex(c, 2, t) ensures t in list {
      TupleMember(c.n, 3, t);
      if t !in list {
        ListSize(list, all - {t});
        TuplesSize(c.n, 3);
      }
    }
  }

  /** Where the search on edge k stands once the first p forward neighbours are done: all
      extensions below the next one are listed. */
  function Reached(forward: seq<nat>, p: nat): nat {
    var q := if p <= |forward| then p else |forward|;
    if q == 0 then 0 else forward[q - 1] + 1
  }

  lemma NeighbourNext(c: Cloud, edges: seq<Simplex>, list: seq<Simplex>, k: nat, p: nat)
    requires IsLevel(c, 1, edges) && (forall k :: 0 <= k < |edges| ==> |edges[k]| == 2)
    requires k < |edges| && p < |Forward(edges, edges[k][0])|
    requires ExtendedTo(c, 1, edges, list, k, Reached(Forward(edges, edges[k][0]), p))
    ensures var w := Forward(edges, edges[k][0])[p]; var v := edges[k][1];
            ExtendedTo(c, 1, edges, if v < w && [v, w] in edges then list + [edges[k] + [w]] else list, k,
                       Reached(Forward(edges, edges[k][0]), p + 1))
  {
    hide ExtendedTo, IsLevel, IsSimplex;
    var forward := Forward(edges, edges[k][0]);
    var w, u := forward[p], edges[k][0];
    ForwardMembers(edges, u, w);
    TriangleByEdges(c, edges, k, w);
    NothingBetween(c, edges, k, p);
    ExtendedSkip(c, 1, edges, list, k, Reached(forward, p), w);
    ExtendedNext(c, 1, edges, list, k, w);
  }

  /** Between two forward neighbours no vertex completes a triangle. */
  lemma NothingBetween(c: Cloud, edges: seq<Simplex>, k: nat, p: nat)
    requires IsLevel(c, 1, edges) && (forall k :: 0 <= k < |edges| ==> |edges[k]| == 2)
    requires k < |edges| && p < |Forward(edges, edges[k][0])|
    ensures var forward := Forward(edges, edges[k][0]);
            && Reached(forward, p) <= forward[p]
            && forall x :: Reached(forward, p) <= x < forward[p] ==> !IsSimplex(c, 2, edges[k] + [x])
  {
    var u := edges[k][0];
    var forward := Forward(edges, u);
    ForwardAscends(edges, u);
    forall x | Reached(forward, p) <= x < forward[p] ensures !IsSimplex(c, 2, edges[k] + [x]) {
      TriangleByEdges(c, edges, k, x);
      ForwardMembers(edges, u, x);
      if x in forward {
        var q :| 0 <= q < |forward| && forward[q] == x;
        assert q < p || p <= q;
      }
    }
  }

  /** After the forward neighbours nothing on edge k is left. */
  lemma NeighboursDone(c: Cloud, edges: seq<Simplex>, list: seq<Simplex>, k: nat)
    requires IsLevel(c, 1, edges) && (forall k :: 0 <= k < |edges| ==> |edges[k]| == 2)
    requires k < |edges|
    requires ExtendedTo(c, 1, edges, list, k, Reached(Forward(edges, edges[k][0]), |Forward(edges, edges[k][0])|))
    ensures ExtendedTo(c, 1, edges, list, k + 1, 0)
  {
    hide IsLevel, Forward;
    var forward := Forward(edges, edges[k][0]);
    var reached := Reached(forward, |forward|);
    NothingBeyond(c, edges, k);
    var far := if reached < c.n then c.n else reached;
    ExtendedSkip(c, 1, edges, list, k, reached, far);
    hide Reached;
    var e := 2;
    forall t | IsSimplex(c, e, t) && t[..e] == edges[k] ensures t[e] < far {
    }
    assert edges[..k + 1] == edges[..k] + [edges[k]];
  }

  /** Past the forward neighbours no vertex completes a triangle. */
  lemma NothingBeyond(c: Cloud, edges: seq<Simplex>, k: nat)
    requires IsLevel(c, 1, edges) && (forall k :: 0 <= k < |edges| ==> |edges[k]| == 2)
    requires k < |edges|
    ensures var forward := Forward(edges, edges[k][0]);
            forall x :: Reached(forward, |forward|) <= x ==> !IsSimplex(c, 2, edges[k] + [x])
  {
    var u := edges[k][0];
    var forward := Forward(edges, u);
    ForwardAscends(edges, u);
    forall x | Reached(forward, |forward|) <= x ensures !IsSimplex(c, 2, edges[k] + [x]) {
      TriangleByEdges(c, edges, k, x);
      ForwardMembers(edges, u, x);
    }
  }

  /** A backward neighbour lies below u, so it never passes the test w > v. */
  lemma BackwardBelow(c: Cloud, edges: seq<Simplex>, k: nat, w: nat)
    requires IsLevel(c, 1, edges) && (forall k :: 0 <= k < |edges| ==> |edges[k]| == 2)
    requires k < |edges| && w in Backward(edges, edges[k][0])
    ensures w < edges[k][1]
  {
    ForwardMembers(edges, edges[k][0], w);
    assert IsSimplex(c, 1, [w, edges[k][0]]) && edges[k] in edges;
    var e := [w, edges[k][0]];
    assert e[0] < e[1];
  }

  /** What the test on neighbour p decides. */
  lemma NeighbourTest(c: Cloud, edges: seq<Simplex>, i: nat, p: nat)
    requires IsLevel(c, 1, edges) && (forall k :: 0 <= k < |edges| ==> |edges[k]| == 2)
    requires i < |edges| && p < |Forward(edges, edges[i][0]) + Backward(edges, edges[i][0])|
    ensures var forward := Forward(edges, edges[i][0]); var v := edges[i][1];
            var w := (forward + Backward(edges, edges[i][0]))[p];
            && edges[i] == [edges[i][0], v]
            && (w > v ==> p < |forward| && w == forward[p])
            && (w > v ==> (w in Forward(edges, v) + Backward(edges, v) <==> [v, w] in edges))
  {
    var forward, backward, v := Forward(edges, edges[i][0]), Backward(edges, edges[i][0]), edges[i][1];
    var w := (forward + backward)[p];
    if p >= |forward| {
      assert w in backward;
      BackwardBelow(c, edges, i, w);
    }
    ForwardMembers(edges, v, w);
    if [w, v] in edges {
      var e := [w, v];
      assert IsSimplex(c, 1, e) && e[0] < e[1];
    }
  }

  lemma NextFits(c: Cloud, edges: seq<Simplex>, list: seq<Simplex>, i: nat, w: nat, reached: nat)
    requires i < |edges| && IsLevel(c, 1, edges)
    requires |edges[i]| == 2
    ensures ExtendedTo(c, 1, edges, list + [edges[i] + [w]], i, reached) ==> |list| < Choose(c.n, 3)
  {
    if ExtendedTo(c, 1, edges, list + [edges[i] + [w]], i, reached) {
      TriangleFits(c, edges, list + [edges[i] + [w]], i, reached);
    }
  }

  lemma FullBuffer(c: Cloud, edges: seq<Simplex>, list: seq<Simplex>, i: nat, reached: nat)
    requires i < |edges| && IsLevel(c, 1, edges) && ExtendedTo(c, 1, edges, list, i, reached)
    requires |list| >= Choose(c.n, 3)
    ensures IsLevel(c, 2, list)
  {
    TriangleFits(c, edges, list, i, reached);
    FullIsComplete(c, list);
  }

  lemma NoTriangles(c: Cloud, edges: seq<Simplex>)
    requires IsLevel(c, 1, edges) && (c.n < 3 || edges == [])
    ensures IsLevel(c, 2, [])
  {
    forall t | |t| == 3 && Increasing(t) ensures t[2] >= 2 {
      assert t[0] < t[1] < t[2];
    }
    forall t ensures !IsSimplex(c, 2, t) {
      if IsSimplex(c, 2, t) { PrefixIsSimplex(c, 1, t); }
    }
  }

  /** Test neighbour p of edge i and record the triangle when it passes. */
  method TestNeighbour(c: Cloud, edges: seq<Simplex>, i: nat, p: nat, forward: seq<nat>, uNeighbors: seq<nat>,
      vNeighbors: seq<nat>, triangles: array<seq<nat>>, count: nat)
    returns (count': nat)
    requires IsLevel(c, 1, edges) && (forall k :: 0 <= k < |edges| ==> |edges[k]| == 2)
    requires i < |edges| && triangles.Length == Choose(c.n, 3) && count <= triangles.Length
    requires forward == Forward(edges, edges[i][0]) && uNeighbors == forward + Backward(edges, edges[i][0])
    requires vNeighbors == Forward(edges, edges[i][1]) + Backward(edges, edges[i][1]) && p < |uNeighbors|
    requires ExtendedTo(c, 1, edges, triangles[..count], i, Reached(forward, p))
    modifies triangles
    ensures count' <= triangles.Length
    ensures ExtendedTo(c, 1, edges, triangles[..count'], i, Reached(forward, p + 1))
  {
    hide IsSimplex, SortedLex, ExtendedTo, Choose, Forward, Backward, Increasing, IsLevel;
    var u, v, w := edges[i][0], edges[i][1], uNeighbors[p];
    ghost var list := triangles[..count];
    NeighbourTest(c, edges, i, p);
    if p >= |forward| {
      assert Reached(forward, p + 1) == Reached(forward, p);
    } else {
      NeighbourNext(c, edges, list, i, p);
      NextFits(c, edges, list, i, w, Reached(forward, p + 1));
    }
    count' := count;
    if w in vNeighbors && w > v {
      triangles[count] := [u, v, w];
      count' := count + 1;
      assert edges[i] + [w] == [u, v, w];
      assert triangles[..count'] == list + [edges[i] + [w]];
    }
  }

  method TriangleEnumeration(c: Cloud, edges: seq<Simplex>) returns (found: seq<Simplex>)
    requires IsLevel(c, 1, edges)
    ensures IsLevel(c, 2, found)
  {
    EdgeLengths(c, edges);
    if c.n < 3 || |edges| == 0 {
      NoTriangles(c, edges);
      return [];
    }
    ChooseClosed(c.n);
    hide IsSimplex, SortedLex, ExtendedTo, Choose, Forward, Backward, Increasing, IsLevel, Reached;
    assert c.n * (c.n - 1) * (c.n - 2) / 6 == Choose(c.n, 3);
    var triangles: array<seq<nat>> := new seq<nat>[c.n * (c.n - 1) * (c.n - 2) / 6](_ => []);
    var count := 0;
    NothingExtended(c, 1, edges);
    for i := 0 to |edges|
      invariant 0 <= count <= triangles.Length && ExtendedTo(c, 1, edges, triangles[..count], i, 0)
    {
      var forward, backward := Forward(edges, edges[i][0]), Backward(edges, edges[i][0]);
      var vNeighbors := Forward(edges, edges[i][1]) + Backward(edges, edges[i][1]);
      ReachedNone(forward);
      for p := 0 to |forward + backward|
        invariant 0 <= count <= triangles.Length
        invariant ExtendedTo(c, 1, edges, triangles[..count], i, Reached(forward, p))
      {
        count := TestNeighbour(c, edges, i, p, forward, forward + backward, vNeighbors, triangles, count);
        if count >= triangles.Length {
          found := triangles[..count];
          FullBuffer(c, edges, found, i, Reached(forward, p + 1));
          return;
        }
      }
      NeighboursDone(c, edges, triangles[..count], i);
    }
    AllExtended(c, 1, edges, triangles[..count]);
    found := triangles[..count];
  }

  lemma ReachedNone(forward: seq<nat>)
    ensures Reached(forward, 0) == 0
  {
  }

  /** Both enumerations return the same triangles in the same order. */
  lemma SameTriangles(c: Cloud, levels: seq<seq<Simplex>>, maxDim: int, found: seq<Simplex>)
    requires IsComplexUpTo(c, levels, maxDim) && maxDim >= 2 && IsLevel(c, 2, found)
    ensures found == if |levels| > 2 then levels[2] else []
  {
    if |levels| > 2 {
      assert IsLevel(c, 2, levels[2]);
      LevelUnique(c, 2, found, levels[2]);
    } else {
      var none: seq<Simplex> := [];
      SortedLexUnique(found, none);
    }
  }
}
