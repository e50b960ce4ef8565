/** The two Kruskal implementations, one filling a fixed buffer of n - 1 rows, one appending to a
    list.  Both take the edges in an ascending order of weight, accept an edge exactly when it joins
    two components, and stop at n - 1 edges; what they accept is a minimum spanning forest. */
module Kruskal {
  import opened Wrappers
  import opened Graph
  import opened UnionFind
  import opened Sorting
  import opened Forest
  import opened Components

  function Permuted<T>(xs: seq<T>, order: seq<nat>): (ys: seq<T>)
    requires forall k :: 0 <= k < |order| ==> order[k] < |xs|
    ensures |ys| == |order| && forall k :: 0 <= k < |order| ==> ys[k] == xs[order[k]]
  {
    seq(|order|, k requires 0 <= k < |order| => xs[order[k]])
  }

  // ---------- the shared loop body ----------

  /** Find both roots and link them when they differ: edge k is accepted exactly when it merges
      two components of the edges before it. */
  method TryEdge(sets: DisjointSets, es: seq<Edge>, k: nat) returns (accepted: bool)
    requires sets.Valid() && k < |es| && InRange(es, sets.parent.Length)
    requires Represents(sets.rep, EdgeArcs(es[..k]))
    modifies sets`rep, sets`height, sets.parent
    ensures sets.Valid() && Represents(sets.rep, EdgeArcs(es[..k + 1]))
    ensures accepted <==> Merges(es, k)
  {
    var u, v := es[k].0, es[k].1;
    ghost var g := EdgeArcs(es[..k]);
    var rootU := sets.Find(u);
    var rootV := sets.Find(v);
    MergeRepresents(sets.rep, g, u, v);
    EdgeArcsSnoc(es, k);
    MergingRoots(sets.rep, u, v);
    assert rootU == rootV <==> Joined(g, u, v);
    hide Represents, EdgeArcs, Symmetric, Joined;
    accepted := rootU != rootV;
    if accepted {
      sets.Link(rootU, rootV);
    }
  }

  lemma OneLeaderLeft(es: seq<Edge>, n: nat, k: nat)
    requires k <= |es| && InRange(es, n) && n > 0
    ensures |Greedy(es, k)| <= n - 1
  {
    GreedyCount(es, n, k);
    LeastIsLeader(EdgeArcs(es[..k]), n, 0);
  }

  /** Once n - 1 edges are accepted no later edge is: stopping early loses nothing. */
  lemma {:induction false} GreedyComplete(es: seq<Edge>, n: nat, k: nat, m: nat)
    requires k <= m <= |es| && InRange(es, n) && n > 0
    requires |Greedy(es, k)| == n - 1
    ensures Greedy(es, m) == Greedy(es, k)
  {
    hide Greedy, Merges;
    if k < m {
      GreedyComplete(es, n, k, m - 1);
      OneLeaderLeft(es, n, m);
      GreedySnoc(es, m - 1);
    }
  }

  lemma GreedySnoc(es: seq<Edge>, k: nat)
    requires k < |es|
    ensures Greedy(es, k + 1) == if Merges(es, k) then Greedy(es, k) + [k] else Greedy(es, k)
  {
  }

  lemma PermutedSnoc<T>(xs: seq<T>, order: seq<nat>, k: nat)
    requires k < |xs| && forall i :: 0 <= i < |order| ==> order[i] < |xs|
    ensures Permuted(xs, order + [k]) == Permuted(xs, order) + [xs[k]]
  {
  }

  /** The edges accepted among the first k, in order. */
  ghost function Accepted(es: seq<Edge>, k: nat): (mst: seq<Edge>)
    requires k <= |es|
    ensures |mst| == |Greedy(es, k)|
  {
    Permuted(es, Greedy(es, k))
  }

  lemma AcceptedSnoc(es: seq<Edge>, k: nat)
    requires k < |es|
    ensures Accepted(es, k + 1) == if Merges(es, k) then Accepted(es, k) + [es[k]] else Accepted(es, k)
  {
    GreedySnoc(es, k);
    if Merges(es, k) { PermutedSnoc(es, Greedy(es, k), k); }
  }

  lemma AcceptedFew(es: seq<Edge>, n: nat, k: nat)
    requires k <= |es| && InRange(es, n) && n > 0
    ensures |Accepted(es, k)| <= n - 1
    ensures |Accepted(es, k)| == n - 1 ==> Accepted(es, |es|) == Accepted(es, k)
  {
    OneLeaderLeft(es, n, k);
    if |Greedy(es, k)| == n - 1 { GreedyComplete(es, n, k, |es|); }
  }

  lemma NothingAccepted(es: seq<Edge>)
    ensures Accepted(es, 0) == []
  {
  }

  /** The fixed buffer of n - 1 rows is filled with the accepted edges and never overrun. */
  method FillBuffer(es: seq<Edge>, n: nat) returns (mst: array<Edge>, count: nat)
    requires n >= 2 && InRange(es, n)
    ensures count <= mst.Length == n - 1
    ensures mst[..count] == Accepted(es, |es|)
  {
    hide Represents, EdgeArcs, Symmetric, Merges, Greedy, Accepted;
    var sets := new DisjointSets(n);
    NothingRepresented(n, es);
    NothingAccepted(es);
    mst := new Edge[n - 1](_ => (0, 0));
    count := 0;
    for i := 0 to |es|
      invariant sets.Valid() && Represents(sets.rep, EdgeArcs(es[..i]))
      invariant count == |Accepted(es, i)| < n - 1
      invariant mst[..count] == Accepted(es, i)
    {
      var accepted := TryEdge(sets, es, i);
      AcceptedSnoc(es, i);
      AcceptedFew(es, n, i + 1);
      if accepted {
        mst[count] := es[i];
        count := count + 1;
        assert mst[..count] == mst[..count - 1] + [es[i]];
      }
      if count == n - 1 { break; }
    }
  }

  /** The list version: append, and stop at n - 1 edges. */
  method FillList(es: seq<Edge>, n: nat) returns (mst: seq<Edge>)
    requires n >= 2 && InRange(es, n)
    ensures mst == Accepted(es, |es|)
  {
    hide Represents, EdgeArcs, Symmetric, Merges, Greedy, Accepted;
    var sets := new DisjointSets(n);
    NothingRepresented(n, es);
    NothingAccepted(es);
    mst := [];
    for i := 0 to |es|
      invariant sets.Valid() && Represents(sets.rep, EdgeArcs(es[..i]))
      invariant mst == Accepted(es, i)
    {
      var accepted := TryEdge(sets, es, i);
      AcceptedSnoc(es, i);
      AcceptedFew(es, n, i + 1);
      if accepted { mst := mst + [es[i]]; }
      if |mst| == n - 1 { break; }
    }
  }

  // ---------- back to the indices of the input ----------

  ghost function Image(order: seq<nat>, f: set<nat>): (h: set<nat>) {
    set k | k in f && k < |order| :: order[k]
  }

  ghost predicate IsPermutation(order: seq<nat>, m: nat) {
    && |order| == m
    && (forall k :: 0 <= k < m ==> order[k] < m)
    && Distinct(order)
    && (forall i: nat :: i < m ==> i in order)
  }

  ghost predicate Indices(f: set<nat>, m: nat) {
    forall i :: i in f ==> i < m
  }

  lemma ImageRemove(order: seq<nat>, f: set<nat>, k: nat, m: nat)
    requires IsPermutation(order, m) && Indices(f, m) && k in f
    ensures order[k] in Image(order, f)
    ensures Image(order, f - {k}) == Image(order, f) - {order[k]}
  {
  }

  lemma ChosenImage(edges: seq<Edge>, order: seq<nat>, f: set<nat>)
    requires IsPermutation(order, |edges|) && Indices(f, |edges|)
    ensures Chosen(edges, Image(order, f)) == Chosen(Permuted(edges, order), f)
  {
    var es, h := Permuted(edges, order), Image(order, f);
    var a := set i | i in h && i < |edges| :: edges[i];
    var b := set k | k in f && k < |es| :: es[k];
    assert a == b by {
      forall k | k in f ensures edges[order[k]] in a { assert order[k] in h; }
    }
    var c := set i | i in h && i < |edges| :: (edges[i].1, edges[i].0);
    var d := set k | k in f && k < |es| :: (es[k].1, es[k].0);
    assert c == d by {
      forall k | k in f ensures (edges[order[k]].1, edges[order[k]].0) in c { assert order[k] in h; }
    }
  }

  lemma AcyclicImage(edges: seq<Edge>, order: seq<nat>, f: set<nat>)
    requires IsPermutation(order, |edges|) && Indices(f, |edges|)
    ensures Acyclic(Permuted(edges, order), f) <==> Acyclic(edges, Image(order, f))
  {
    hide Joined, Chosen, Symmetric;
    var es, h := Permuted(edges, order), Image(order, f);
    forall k | k in f
      ensures order[k] in h && Chosen(es, f - {k}) == Chosen(edges, h - {order[k]})
    {
      ImageRemove(order, f, k, |edges|);
      ChosenImage(edges, order, f - {k});
    }
  }

  lemma EdgeArcsPermuted(edges: seq<Edge>, order: seq<nat>)
    requires IsPermutation(order, |edges|)
    ensures EdgeArcs(Permuted(edges, order)) == EdgeArcs(edges)
  {
    var es := Permuted(edges, order);
    forall e ensures e in es <==> e in edges {
      if e in edges {
        var i :| 0 <= i < |edges| && edges[i] == e;
        assert i in order;
        var k :| 0 <= k < |order| && order[k] == i;
        assert es[k] == e;
      }
    }
    forall a: nat, b: nat ensures (a, b) in EdgeArcs(es) <==> (a, b) in EdgeArcs(edges) {
      EdgeArcsMember(es, a, b);
      EdgeArcsMember(edges, a, b);
    }
  }

  lemma {:induction false} SumImage(w: seq<real>, order: seq<nat>, f: set<nat>)
    requires IsPermutation(order, |w|) && Indices(f, |w|)
    ensures Indices(Image(order, f), |w|)
    ensures SumOver(w, Image(order, f)) == SumOver(Permuted(w, order), f)
  {
    if f == {} {
      assert Image(order, f) == {};
    } else {
      var k :| k in f;
      ImageRemove(order, f, k, |w|);
      SumImage(w, order, f - {k});
      SumRemove(w, Image(order, f), order[k]);
      SumRemove(Permuted(w, order), f, k);
    }
  }

  lemma SpanningImage(edges: seq<Edge>, order: seq<nat>, f: set<nat>)
    requires IsPermutation(order, |edges|) && Indices(f, |edges|)
    ensures SpanningForest(Permuted(edges, order), f) <==> SpanningForest(edges, Image(order, f))
  {
    hide Joined, Chosen, Symmetric, EdgeArcs, Acyclic;
    AcyclicImage(edges, order, f);
    ChosenImage(edges, order, f);
    EdgeArcsPermuted(edges, order);
  }

  lemma ImageOnto(order: seq<nat>, f: set<nat>, m: nat) returns (pre: set<nat>)
    requires IsPermutation(order, m) && Indices(f, m)
    ensures Indices(pre, m) && Image(order, pre) == f
  {
    pre := set k | 0 <= k < m && order[k] in f;
    forall i | i in f ensures i in Image(order, pre) {
      assert i in order;
      var k :| 0 <= k < m && order[k] == i;
      assert k in pre;
    }
  }

  /** A minimum spanning forest, as a set of edge indices. */
  ghost predicate MinimumForest(edges: seq<Edge>, weights: seq<real>, t: set<nat>)
    requires |weights| == |edges|
  {
    && SpanningForest(edges, t) && Indices(t, |edges|)
    && forall f :: Indices(f, |edges|) && SpanningForest(edges, f) ==> SumOver(weights, t) <= SumOver(weights, f)
  }

  /** The edges accepted in any ascending order form a minimum spanning forest of the input. */
  lemma AcceptedIsMinimum(edges: seq<Edge>, weights: seq<real>, n: nat, order: seq<nat>)
    requires |weights| == |edges| && InRange(edges, n) && IsArgsort(order, weights)
    ensures MinimumForest(edges, weights, Image(order, GreedySet(Permuted(edges, order), |edges|)))
  {
    hide SpanningForest, SumOver, GreedySet, Image;
    var es, w := Permuted(edges, order), Permuted(weights, order);
    var t := GreedySet(es, |es|);
    SpanningGreedy(es);
    SpanningImage(edges, order, t);
    SumImage(weights, order, t);
    forall f | Indices(f, |edges|) && SpanningForest(edges, f)
      ensures SumOver(weights, Image(order, t)) <= SumOver(weights, f)
    {
      var pre := ImageOnto(order, f, |edges|);
      SpanningImage(edges, order, pre);
      SumImage(weights, order, pre);
      GreedyIsLightest(es, w, n, pre);
    }
  }

  lemma SpanningGreedy(es: seq<Edge>)
    ensures SpanningForest(es, GreedySet(es, |es|)) && Indices(GreedySet(es, |es|), |es|)
  {
    hide Joined, Chosen, EdgeArcs, Acyclic, Greedy;
    GreedySpans(es, |es|);
    GreedyMembers(es, |es|);
    assert es[..|es|] == es;
  }

  /** tree lists the input indices of a minimum spanning forest, in order of acceptance, which is
      ascending in weight. */
  ghost predicate IsMinimumTree(edges: seq<Edge>, weights: seq<real>, tree: seq<nat>, mst: seq<Edge>)
    requires |weights| == |edges|
  {
    && (forall k :: 0 <= k < |tree| ==> tree[k] < |edges|) && Distinct(tree)
    && mst == Permuted(edges, tree)
    && MinimumForest(edges, weights, ToSet(tree))
    && forall k, l :: 0 <= k < l < |tree| ==> weights[tree[k]] <= weights[tree[l]]
  }

  lemma AcceptedTree(edges: seq<Edge>, weights: seq<real>, n: nat, order: seq<nat>) returns (tree: seq<nat>)
    requires |weights| == |edges| && InRange(edges, n) && IsArgsort(order, weights)
    ensures IsMinimumTree(edges, weights, tree, Accepted(Permuted(edges, order), |edges|))
  {
    hide MinimumForest, Merges;
    var es := Permuted(edges, order);
    var t := Greedy(es, |es|);
    GreedyIncreasing(es, |es|);
    tree := Permuted(order, t);
    forall k, l | 0 <= k < l < |tree| ensures weights[tree[k]] <= weights[tree[l]] {
      assert t[k] < t[l] && tree[k] == order[t[k]] && tree[l] == order[t[l]];
    }
    AcceptedIsMinimum(edges, weights, n, order);
    assert ToSet(tree) == Image(order, ToSet(t)) by {
      forall k | k in t ensures order[k] in tree {
        var i :| 0 <= i < |t| && t[i] == k;
        assert tree[i] == order[k];
      }
    }
  }

  lemma {:induction false} GreedyIncreasing(es: seq<Edge>, k: nat)
    requires k <= |es|
    ensures forall i, j :: 0 <= i < j < |Greedy(es, k)| ==> Greedy(es, k)[i] < Greedy(es, k)[j]
  {
    if k > 0 { GreedyIncreasing(es, k - 1); }
  }

  // ---------- the two entry points ----------

  method MstKruskal(edges: seq<Edge>, weights: seq<real>, n: int)
    returns (r: Result<seq<Edge>>, ghost tree: seq<nat>)
    requires n > 1 ==> InRange(edges, n)
    ensures n < 0 ==> r == Failure(NegativeVertexCount)
    ensures 0 <= n <= 1 ==> r == Success([])
    ensures n > 1 && |edges| != |weights| ==> r == Failure(LengthMismatch)
    ensures n > 1 && |edges| == |weights| ==> r.Success? && IsMinimumTree(edges, weights, tree, r.value)
  {
    tree := [];
    if n < 0 { return Failure(NegativeVertexCount), []; }
    if n <= 1 { return Success([]), []; }
    if |edges| != |weights| { return Failure(LengthMismatch), []; }
    hide IsMinimumTree;
    var order := Argsort(weights);
    var es := Permuted(edges, order);
    var mst, count := FillBuffer(es, n);
    tree := AcceptedTree(edges, weights, n, order);
    r := Success(mst[..count]);
  }

  /** Index pairs i < j below n in row order. */
  method UpperPairs(n: nat) returns (pairs: seq<(int, int)>)
    ensures ValidEdges(pairs, n)
    ensures forall i, j :: (i, j) in pairs <==> 0 <= i < j < n
    ensures RowOrder(pairs)
  {
    pairs := [];
    for i := 0 to n
      invariant forall a, b :: (a, b) in pairs <==> 0 <= a < b < n && a < i
      invariant RowOrder(pairs)
    {
      for j := i + 1 to n
        invariant forall a, b :: (a, b) in pairs <==> 0 <= a < b < n && (a < i || (a == i && b < j))
        invariant RowOrder(pairs)
      {
        RowOrderSnoc(pairs, i, j);
        pairs := pairs + [(i, j)];
      }
    }
    forall k | 0 <= k < |pairs| ensures 0 <= pairs[k].0 < n && 0 <= pairs[k].1 < n {
      var (a, b) := pairs[k];
      assert pairs[k] == (a, b);
      assert (a, b) in pairs;
    }
  }

  /** Row by row, and ascending in each row; so each pair occurs once. */
  ghost predicate RowOrder(pairs: seq<(int, int)>) {
    forall k, l :: 0 <= k < l < |pairs| ==>
      pairs[k].0 < pairs[l].0 || (pairs[k].0 == pairs[l].0 && pairs[k].1 < pairs[l].1)
  }

  lemma RowOrderSnoc(pairs: seq<(int, int)>, i: int, j: int)
    requires RowOrder(pairs) && forall a, b :: (a, b) in pairs ==> a < i || (a == i && b < j)
    ensures RowOrder(pairs + [(i, j)])
  {
    forall k | 0 <= k < |pairs| ensures pairs[k].0 < i || (pairs[k].0 == i && pairs[k].1 < j) {
      assert (pairs[k].0, pairs[k].1) in pairs;
    }
  }

  function Lengths(es: seq<Edge>, dist: (nat, nat) -> real): (w: seq<real>) {
    seq(|es|, k requires 0 <= k < |es| => dist(es[k].0, es[k].1))
  }

  /** The sum of the distances between the ends. */
  ghost function Total(es: seq<Edge>, dist: (nat, nat) -> real): (sum: real) {
    if es == [] then 0.0
    else
      var last := |es| - 1;
      Total(es[..last], dist) + dist(es[last].0, es[last].1)
  }

  /** Edge indices, each once, whose edges are a spanning forest. */
  ghost predicate IsForestChoice(es: seq<Edge>, choice: seq<nat>) {
    (forall k :: 0 <= k < |choice| ==> choice[k] < |es|) && Distinct(choice) && SpanningForest(es, ToSet(choice))
  }

  /** mst is a spanning forest, and no spanning forest has a smaller sum of distances. */
  ghost predicate IsShortestForest(es: seq<Edge>, dist: (nat, nat) -> real, tree: seq<nat>, mst: seq<Edge>) {
    && IsForestChoice(es, tree) && mst == Permuted(es, tree)
    && (forall k, l :: 0 <= k < l < |mst| ==> dist(mst[k].0, mst[k].1) <= dist(mst[l].0, mst[l].1))
    && forall choice: seq<nat> :: IsForestChoice(es, choice) ==> Total(mst, dist) <= Total(Permuted(es, choice), dist)
  }

  lemma {:induction false} SumIsTotal(es: seq<Edge>, dist: (nat, nat) -> real, choice: seq<nat>)
    requires (forall k :: 0 <= k < |choice| ==> choice[k] < |es|) && Distinct(choice)
    ensures forall i :: i in ToSet(choice) ==> i < |Lengths(es, dist)|
    ensures SumOver(Lengths(es, dist), ToSet(choice)) == Total(Permuted(es, choice), dist)
  {
    var w := Lengths(es, dist);
    if choice == [] {
      assert ToSet(choice) == {};
    } else {
      var last := |choice| - 1;
      var x := choice[last];
      SumIsTotal(es, dist, choice[..last]);
      assert x in ToSet(choice) && ToSet(choice) - {x} == ToSet(choice[..last]) by {
        assert choice == choice[..last] + [x];
        assert x !in choice[..last];
      }
      SumRemove(w, ToSet(choice), x);
      assert Permuted(es, choice)[..last] == Permuted(es, choice[..last]);
    }
  }

  lemma MinimumIsShortest(es: seq<Edge>, dist: (nat, nat) -> real, tree: seq<nat>, mst: seq<Edge>)
    requires IsMinimumTree(es, Lengths(es, dist), tree, mst)
    ensures IsShortestForest(es, dist, tree, mst)
  {
    assert forall i :: 0 <= i < |es| ==> Lengths(es, dist)[i] == dist(es[i].0, es[i].1);
    hide SpanningForest, SumOver, Total, Lengths;
    SumIsTotal(es, dist, tree);
    forall choice: seq<nat> | IsForestChoice(es, choice)
      ensures Total(mst, dist) <= Total(Permuted(es, choice), dist)
    {
      SumIsTotal(es, dist, choice);
    }
  }

  lemma SamePairs(pairs: seq<(int, int)>, n: nat)
    requires ValidEdges(pairs, n)
    requires forall i, j :: (i, j) in pairs <==> 0 <= i < j < n
    ensures forall i: nat, j: nat :: (i, j) in AsEdges(pairs, n) <==> i < j < n
  {
    var es := AsEdges(pairs, n);
    forall i: nat, j: nat ensures (i, j) in es <==> i < j < n {
      if i < j < n {
        assert (i as int, j as int) in pairs;
        var k :| 0 <= k < |pairs| && pairs[k] == (i, j);
        assert es[k] == (i, j);
      }
      if (i, j) in es {
        var k :| 0 <= k < |es| && es[k] == (i, j);
        assert pairs[k] == (i as int, j as int) && pairs[k] in pairs;
      }
    }
  }

  lemma PermutedInRange(es: seq<Edge>, order: seq<nat>, n: nat)
    requires InRange(es, n) && forall k :: 0 <= k < |order| ==> order[k] < |es|
    ensures InRange(Permuted(es, order), n)
  {
  }

  /** Kruskal on validated edges of length dist. */
  method TreeOf(es: seq<Edge>, dist: (nat, nat) -> real, n: nat) returns (mst: seq<Edge>, ghost tree: seq<nat>)
    requires n >= 2 && InRange(es, n)
    ensures IsMinimumTree(es, Lengths(es, dist), tree, mst)
  {
    hide IsMinimumTree, Accepted, InRange, Greedy;
    var w := Lengths(es, dist);
    var order := Argsort(w);
    var sorted := Permuted(es, order);
    PermutedInRange(es, order, n);
    tree := AcceptedTree(es, w, n, order);
    hide *;
    if es == [] {
      NothingAccepted(sorted);
      mst := [];
    } else {
      mst := FillList(sorted, n);
    }
  }

  method MinimumSpanningTreeFast(n: nat, dist: (nat, nat) -> real, edges: Option<seq<(int, int)>>)
    returns (r: Result<seq<Edge>>, ghost es: seq<Edge>, ghost tree: seq<nat>)
    ensures n <= 1 ==> r == Success([])
    ensures n > 1 ==>
              (r == Failure(EdgeOutOfBounds) <==>
                && edges.Some?
                && exists i :: 0 <= i < |edges.value| && !(0 <= edges.value[i].0 < n && 0 <= edges.value[i].1 < n))
    ensures n > 1 && r.Success? && edges.Some? ==>
              && |es| == |edges.value|
              && forall i :: 0 <= i < |es| ==> es[i].0 == edges.value[i].0 && es[i].1 == edges.value[i].1
    ensures n > 1 && edges == None ==> forall i: nat, j: nat :: (i, j) in es <==> i < j < n
    ensures n > 1 ==> r.Success? || r == Failure(EdgeOutOfBounds)
    ensures n > 1 && r.Success? ==> IsMinimumTree(es, Lengths(es, dist), tree, r.value)
    ensures n > 1 && r.Success? ==> IsShortestForest(es, dist, tree, r.value)
  {
    es, tree := [], [];
    if n <= 1 { return Success([]), [], []; }
    hide IsMinimumTree, IsShortestForest;
    var pairs: seq<(int, int)>;
    if edges.None? {
      pairs := UpperPairs(n);
      SamePairs(pairs, n);
    } else {
      pairs := edges.value;
    }
    if !ValidEdges(pairs, n) { return Failure(EdgeOutOfBounds), [], []; }
    var mst;
    es := AsEdges(pairs, n);
    mst, tree := TreeOf(AsEdges(pairs, n), dist, n);
    MinimumIsShortest(es, dist, tree, mst);
    r := Success(mst);
  }
}
