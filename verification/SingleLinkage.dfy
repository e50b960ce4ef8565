/** Single linkage clustering. */
module SingleLinkage {
  // Sort all pairs by distance, unite up to the threshold, label each point by its root.

  import opened Graph
  import opened UnionFind
  import opened Sorting
  import opened Components

  type Weighted = (real, nat, nat)

  /** Pairs of points at most the threshold apart. */
  ghost function CloseArcs(n: nat, dist: (nat, nat) -> real, threshold: real): (g: Arcs)
    ensures Symmetric(g)
  {
    set i: nat, j: nat | i < n && j < n &&
      ((i < j && dist(i, j) <= threshold) || (j < i && dist(j, i) <= threshold)) :: (i, j)
  }

  method AllPairs(n: nat, dist: (nat, nat) -> real) returns (pairs: seq<Weighted>)
    ensures forall e :: e in pairs <==> e.1 < e.2 < n && e.0 == dist(e.1, e.2)
    ensures Distinct(pairs)
  {
    pairs := [];
    for i := 0 to n
      invariant Distinct(pairs)
      invariant forall e :: e in pairs <==> e.1 < e.2 < n && e.1 < i && e.0 == dist(e.1, e.2)
    {
      for j := i + 1 to n
        invariant Distinct(pairs)
        invariant forall e :: e in pairs <==>
                    e.1 < e.2 < n && (e.1 < i || (e.1 == i && e.2 < j)) && e.0 == dist(e.1, e.2)
      {
        assert (dist(i, j), i, j) !in pairs;
        pairs := pairs + [(dist(i, j), i, j)];
      }
    }
  }

  predicate LexLe(a: Weighted, b: Weighted) {
    a.0 < b.0 || (a.0 == b.0 && (a.1 < b.1 || (a.1 == b.1 && a.2 <= b.2)))
  }

  /** Shorter pairs come first, pairs of equal length by their points. */
  ghost predicate TupleOrder(sorted: seq<Weighted>) {
    forall k, l :: 0 <= k < l < |sorted| ==>
      || sorted[k].0 < sorted[l].0
      || (sorted[k].0 == sorted[l].0 && sorted[k].1 < sorted[l].1)
      || (sorted[k].0 == sorted[l].0 && sorted[k].1 == sorted[l].1 && sorted[k].2 < sorted[l].2)
  }

  method SortPairs(pairs: seq<Weighted>) returns (sorted: seq<Weighted>)
    requires Distinct(pairs)
    ensures TupleOrder(sorted)
    ensures forall e :: e in sorted <==> e in pairs
    ensures forall k, l :: 0 <= k < l < |sorted| ==> sorted[k].0 <= sorted[l].0
  {
    sorted := Sort(pairs, LexLe);
    forall e ensures e in sorted <==> e in pairs {
      assert e in multiset(sorted) <==> e in multiset(pairs);
    }
    RearrangedDistinct(sorted, pairs);
    forall k, l | 0 <= k < l < |sorted| ensures LexLe(sorted[k], sorted[l]) && sorted[k] != sorted[l] {
    }
  }

  function Endpoints(pairs: seq<Weighted>): (es: seq<Edge>)
    ensures |es| == |pairs| && forall k :: 0 <= k < |pairs| ==> es[k] == (pairs[k].1, pairs[k].2)
  {
    seq(|pairs|, k requires 0 <= k < |pairs| => (pairs[k].1, pairs[k].2))
  }

  /** Stopping at the first pair beyond the threshold has united exactly the close pairs. */
  lemma ClosePrefix(n: nat, dist: (nat, nat) -> real, threshold: real, sorted: seq<Weighted>, k: nat)
    requires k <= |sorted|
    requires forall e :: e in sorted <==> e.1 < e.2 < n && e.0 == dist(e.1, e.2)
    requires forall i :: 0 <= i < k ==> sorted[i].0 <= threshold
    requires forall i :: k <= i < |sorted| ==> sorted[i].0 > threshold
    ensures EdgeArcs(Endpoints(sorted[..k])) == CloseArcs(n, dist, threshold)
  {
    var es := Endpoints(sorted[..k]);
    forall a: nat, b: nat ensures (a, b) in es <==> a < b < n && dist(a, b) <= threshold {
      if (a, b) in es {
        var i :| 0 <= i < |es| && es[i] == (a, b);
        assert sorted[i] in sorted;
      }
      if a < b < n && dist(a, b) <= threshold {
        var e := (dist(a, b), a, b);
        assert e in sorted;
        var i :| 0 <= i < |sorted| && sorted[i] == e;
        assert es[i] == (a, b);
      }
    }
    forall a: nat, b: nat ensures (a, b) in EdgeArcs(es) <==> (a, b) in CloseArcs(n, dist, threshold) {
      EdgeArcsMember(es, a, b);
    }
  }

  method UniteClose(sets: DisjointSets, sorted: seq<Weighted>, threshold: real) returns (k: nat)
    requires sets.Valid() && sets.rep == seq(sets.parent.Length, i => i)
    requires forall i :: 0 <= i < |sorted| ==> sorted[i].1 < sets.parent.Length && sorted[i].2 < sets.parent.Length
    requires forall k, l :: 0 <= k < l < |sorted| ==> sorted[k].0 <= sorted[l].0
    modifies sets`rep, sets`height, sets.parent
    ensures k <= |sorted|
    ensures forall i :: 0 <= i < k ==> sorted[i].0 <= threshold
    ensures forall i :: k <= i < |sorted| ==> sorted[i].0 > threshold
    ensures sets.Valid() && Represents(sets.rep, EdgeArcs(Endpoints(sorted[..k])))
    ensures sets.rep == Roots(Endpoints(sorted), sets.parent.Length, k)
  {
    hide Represents, EdgeArcs, Symmetric;
    var es := Endpoints(sorted);
    NothingRepresented(sets.parent.Length, es);
    k := 0;
    while k < |sorted|
      invariant k <= |sorted| && forall i :: 0 <= i < k ==> sorted[i].0 <= threshold
      invariant sets.Valid() && Represents(sets.rep, EdgeArcs(es[..k]))
      invariant sets.rep == Roots(es, sets.parent.Length, k)
    {
      if sorted[k].0 <= threshold {
        UniteEdge(sets, es, k);
      } else {
        break;
      }
      k := k + 1;
    }
    assert Endpoints(sorted[..k]) == es[..k];
  }

  /** The label of a point is its root after uniting the first k pairs, the ones within the
      threshold, in ascending order. */
  method Cluster(n: nat, dist: (nat, nat) -> real, threshold: real)
    returns (labels: seq<nat>, ghost sorted: seq<Weighted>, ghost k: nat)
    ensures Labels(CloseArcs(n, dist, threshold), n, labels)
    ensures forall u :: 0 <= u < n ==> labels[u] < n && labels[labels[u]] == labels[u]
    ensures TupleOrder(sorted) && forall e :: e in sorted <==> e.1 < e.2 < n && e.0 == dist(e.1, e.2)
    ensures k <= |sorted| && forall i :: 0 <= i < |sorted| ==> (sorted[i].0 <= threshold <==> i < k)
    ensures InRange(Endpoints(sorted), n) && labels == Roots(Endpoints(sorted), n, k)
  {
    var pairs := AllPairs(n, dist);
    var list := SortPairs(pairs);
    sorted := list;
    forall i | 0 <= i < |sorted| ensures sorted[i].1 < n && sorted[i].2 < n {
      assert sorted[i] in sorted;
    }
    var sets := new DisjointSets(n);
    var close := UniteClose(sets, list, threshold);
    k := close;
    ClosePrefix(n, dist, threshold, sorted, k);
    labels := AllRoots(sets);
  }
}
