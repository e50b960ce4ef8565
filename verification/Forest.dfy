/** Forests of edge indices, how many edges they have, and why a greedy forest is the lightest. */
module Forest {
  import opened Graph

  /** The arcs of the edges whose indices are chosen. */
  ghost function Chosen(es: seq<Edge>, f: set<nat>): (g: Arcs)
    ensures Symmetric(g)
  {
    (set i | i in f && i < |es| :: es[i]) + (set i | i in f && i < |es| :: (es[i].1, es[i].0))
  }

  /** No chosen edge closes a cycle with the other chosen ones. */
  ghost predicate Acyclic(es: seq<Edge>, f: set<nat>) {
    forall i :: i in f ==> i < |es| && !Joined(Chosen(es, f - {i}), es[i].0, es[i].1)
  }

  ghost predicate SpanningForest(es: seq<Edge>, f: set<nat>) {
    && Acyclic(es, f)
    && forall u: nat, v: nat :: Joined(Chosen(es, f), u, v) <==> Joined(EdgeArcs(es), u, v)
  }

  lemma ChosenSnoc(es: seq<Edge>, f: set<nat>, i: nat)
    requires i < |es|
    ensures Chosen(es, f + {i}) == WithEdge(Chosen(es, f), es[i].0, es[i].1)
  {
    assert (set k | k in f + {i} && k < |es| :: es[k]) == (set k | k in f && k < |es| :: es[k]) + {es[i]};
    assert (set k | k in f + {i} && k < |es| :: (es[k].1, es[k].0))
        == (set k | k in f && k < |es| :: (es[k].1, es[k].0)) + {(es[i].1, es[i].0)};
  }

  lemma ChosenMonotone(es: seq<Edge>, f: set<nat>, h: set<nat>)
    requires f <= h
    ensures Chosen(es, f) <= Chosen(es, h)
  {
  }

  lemma SubsetAcyclic(es: seq<Edge>, f: set<nat>, h: set<nat>)
    requires f <= h && Acyclic(es, h)
    ensures Acyclic(es, f)
  {
    forall i | i in f ensures i < |es| && !Joined(Chosen(es, f - {i}), es[i].0, es[i].1) {
      assert i in h;
      ChosenMonotone(es, f - {i}, h - {i});
      if Joined(Chosen(es, f - {i}), es[i].0, es[i].1) {
        JoinedMonotone(Chosen(es, f - {i}), Chosen(es, h - {i}), es[i].0, es[i].1);
      }
    }
  }

  /** If a reaches b around the edge i, then with the edge i it reaches it within f. */
  lemma DetourCloses(es: seq<Edge>, f: set<nat>, i: nat, a: nat, b: nat)
    requires i in f && i < |es|
    requires var rest := Chosen(es, f - {i}); var x := es[i].0; var y := es[i].1;
             (Joined(rest, x, a) && Joined(rest, b, y)) || (Joined(rest, x, b) && Joined(rest, a, y))
    ensures Joined(Chosen(es, f), a, b)
  {
    var rest, all := Chosen(es, f - {i}), Chosen(es, f);
    var x, y := es[i].0, es[i].1;
    assert f - {i} + {i} == f;
    ChosenSnoc(es, f - {i}, i);
    OneMoreEdge(rest, x, y, a, b);
    if Joined(rest, x, a) && Joined(rest, b, y) {
      JoinedSym(rest, x, a);
      JoinedSym(rest, b, y);
    } else {
      JoinedSym(rest, x, b);
      JoinedSym(rest, a, y);
      OneMoreEdge(rest, x, y, b, a);
      JoinedSym(all, b, a);
    }
  }

  /** An edge between two trees keeps a forest a forest. */
  lemma GrowAcyclic(es: seq<Edge>, f: set<nat>, k: nat)
    requires Acyclic(es, f) && k < |es| && k !in f
    requires !Joined(Chosen(es, f), es[k].0, es[k].1)
    ensures Acyclic(es, f + {k})
  {
    hide Chosen, Joined, Symmetric, WithEdge;
    forall i | i in f + {k} ensures i < |es| && !Joined(Chosen(es, f + {k} - {i}), es[i].0, es[i].1) {
      if i == k {
        assert f + {k} - {k} == f;
      } else {
        var rest := Chosen(es, f - {i});
        assert f + {k} - {i} == (f - {i}) + {k};
        ChosenSnoc(es, f - {i}, k);
        OneMoreEdge(rest, es[k].0, es[k].1, es[i].0, es[i].1);
        if JoinedAcross(rest, es[k].0, es[k].1, es[i].0, es[i].1) {
          DetourCloses(es, f, i, es[k].0, es[k].1);
        }
      }
    }
  }

  /** A forest of k edges on n vertices has n - k components. */
  lemma {:induction false} ForestSize(es: seq<Edge>, n: nat, f: set<nat>)
    requires Acyclic(es, f) && InRange(es, n)
    ensures |Leaders(Chosen(es, f), n)| == n - |f|
  {
    hide Joined, Symmetric, WithEdge, Leaders, Least, Younger;
    if f == {} {
      assert Chosen(es, f) == {};
      LeadersOfNothing(n);
    } else {
      var i :| i in f;
      var rest := f - {i};
      SubsetAcyclic(es, rest, f);
      ForestSize(es, n, rest);
      assert rest + {i} == f;
      ChosenSnoc(es, rest, i);
      MergeRetiresYounger(Chosen(es, rest), n, es[i].0, es[i].1);
    }
  }

  // ---------- the greedy forest ----------

  /** Edge k joins two components of the edges before it. */
  ghost predicate Merges(es: seq<Edge>, k: nat)
    requires k < |es|
  {
    !Joined(EdgeArcs(es[..k]), es[k].0, es[k].1)
  }

  /** The indices below k of the edges that merge two components, in order. */
  ghost function Greedy(es: seq<Edge>, k: nat): (t: seq<nat>)
    requires k <= |es|
    ensures forall i :: 0 <= i < |t| ==> t[i] < k
  {
    if k == 0 then []
    else Greedy(es, k - 1) + if Merges(es, k - 1) then [k - 1] else []
  }

  ghost function ToSet(t: seq<nat>): set<nat> {
    set i | i in t
  }

  ghost function GreedySet(es: seq<Edge>, k: nat): (t: set<nat>)
    requires k <= |es|
  {
    ToSet(Greedy(es, k))
  }

  lemma {:induction false} GreedyMembers(es: seq<Edge>, k: nat)
    requires k <= |es|
    ensures forall i: nat :: i in GreedySet(es, k) <==> i < k && Merges(es, i)
    ensures |GreedySet(es, k)| == |Greedy(es, k)|
  {
    hide Merges;
    if k > 0 {
      GreedyMembers(es, k - 1);
      GreedySetSnoc(es, k - 1);
    }
  }

  lemma GreedySetSnoc(es: seq<Edge>, k: nat)
    requires k < |es|
    ensures GreedySet(es, k + 1) == if Merges(es, k) then GreedySet(es, k) + {k} else GreedySet(es, k)
    ensures k !in GreedySet(es, k)
  {
    hide Merges;
    var t := Greedy(es, k);
    assert k !in t;
    if Merges(es, k) {
      assert Greedy(es, k + 1) == t + [k];
    } else {
      assert Greedy(es, k + 1) == t + [];
    }
  }

  /** The chosen edges connect exactly what the first k edges connect. */
  ghost predicate Spans(es: seq<Edge>, f: set<nat>, k: nat)
    requires k <= |es|
  {
    forall u: nat, v: nat :: Joined(Chosen(es, f), u, v) <==> Joined(EdgeArcs(es[..k]), u, v)
  }

  lemma SpansWithEdge(es: seq<Edge>, f: set<nat>, k: nat)
    requires k < |es| && Spans(es, f, k)
    ensures Spans(es, f + {k}, k + 1)
  {
    hide Joined, Chosen, EdgeArcs, Symmetric, WithEdge;
    EdgeArcsSnoc(es, k);
    ChosenSnoc(es, f, k);
    forall u: nat, v: nat
      ensures Joined(Chosen(es, f + {k}), u, v) <==> Joined(EdgeArcs(es[..k + 1]), u, v)
    {
      OneMoreEdge(Chosen(es, f), es[k].0, es[k].1, u, v);
      OneMoreEdge(EdgeArcs(es[..k]), es[k].0, es[k].1, u, v);
    }
  }

  lemma SpansRedundant(es: seq<Edge>, f: set<nat>, k: nat)
    requires k < |es| && Spans(es, f, k) && !Merges(es, k)
    ensures Spans(es, f, k + 1)
  {
    hide Joined, Chosen, EdgeArcs, Symmetric, WithEdge;
    EdgeArcsSnoc(es, k);
    forall u: nat, v: nat
      ensures Joined(EdgeArcs(es[..k]), u, v) <==> Joined(EdgeArcs(es[..k + 1]), u, v)
    {
      RedundantEdge(EdgeArcs(es[..k]), es[k].0, es[k].1, u, v);
    }
  }

  /** The greedy edges connect what all edges so far connect, without a cycle. */
  lemma {:induction false} GreedySpans(es: seq<Edge>, k: nat)
    requires k <= |es|
    ensures Acyclic(es, GreedySet(es, k)) && Spans(es, GreedySet(es, k), k)
  {
    hide Joined, Acyclic, Symmetric;
    if k == 0 {
      NothingSpans(es);
    } else {
      var t := GreedySet(es, k - 1);
      GreedySpans(es, k - 1);
      GreedySetSnoc(es, k - 1);
      if Merges(es, k - 1) {
        GrowAcyclic(es, t, k - 1);
        SpansWithEdge(es, t, k - 1);
      } else {
        SpansRedundant(es, t, k - 1);
      }
    }
  }

  lemma NothingSpans(es: seq<Edge>)
    ensures GreedySet(es, 0) == {} && Acyclic(es, {}) && Spans(es, {}, 0)
  {
    assert Chosen(es, {}) == EdgeArcs(es[..0]);
  }

  lemma LeadersStep(es: seq<Edge>, n: nat, k: nat)
    requires k < |es| && InRange(es, n)
    ensures var before := Leaders(EdgeArcs(es[..k]), n); var after := Leaders(EdgeArcs(es[..k + 1]), n);
            |after| == if Merges(es, k) then |before| - 1 else |before|
  {
    hide Joined, Symmetric, WithEdge, Leaders, Least, Younger, EdgeArcs;
    var e, g := es[k], EdgeArcs(es[..k]);
    EdgeArcsSnoc(es, k);
    if Merges(es, k) {
      MergeRetiresYounger(g, n, e.0, e.1);
    } else {
      RedundantKeepsLeaders(g, n, e.0, e.1);
    }
  }

  lemma NoEdgesYet(es: seq<Edge>, n: nat)
    ensures Leaders(EdgeArcs(es[..0]), n) == Below(n)
  {
    assert EdgeArcs(es[..0]) == {};
    LeadersOfNothing(n);
  }

  /** Each accepted edge retires one component: accepted edges and components add up to n. */
  lemma {:induction false} GreedyCount(es: seq<Edge>, n: nat, k: nat)
    requires k <= |es| && InRange(es, n)
    ensures |Greedy(es, k)| + |Leaders(EdgeArcs(es[..k]), n)| == n
  {
    hide Leaders, Least, EdgeArcs, Merges, InRange;
    if k == 0 {
      NoEdgesYet(es, n);
    } else {
      GreedyCount(es, n, k - 1);
      LeadersStep(es, n, k - 1);
    }
  }

  // ---------- weights ----------

  ghost function SumOver(w: seq<real>, f: set<nat>): real
    requires forall i :: i in f ==> i < |w|
  {
    if f == {} then 0.0
    else
      var i :| i in f;
      w[i] + SumOver(w, f - {i})
  }

  /** The sum does not depend on the order in which indices are taken. */
  lemma {:induction false} SumRemove(w: seq<real>, f: set<nat>, x: nat)
    requires (forall i :: i in f ==> i < |w|) && x in f
    ensures SumOver(w, f) == w[x] + SumOver(w, f - {x})
  {
    var i :| i in f && SumOver(w, f) == w[i] + SumOver(w, f - {i});
    if i != x {
      SumRemove(w, f - {i}, x);
      SumRemove(w, f - {x}, i);
      assert f - {i} - {x} == f - {x} - {i};
    }
  }

  ghost function Upto(f: set<nat>, k: nat): (h: set<nat>) {
    set i | i in f && i < k
  }

  lemma ChosenAmongFirst(es: seq<Edge>, f: set<nat>, k: nat)
    requires k <= |es| && forall i :: i in f ==> i < k
    ensures Chosen(es, f) <= EdgeArcs(es[..k])
  {
    forall i: nat | i in f ensures es[i] in EdgeArcs(es[..k]) && (es[i].1, es[i].0) in EdgeArcs(es[..k]) {
      assert es[..k][i] == es[i];
      EdgeArcsMember(es[..k], es[i].0, es[i].1);
      EdgeArcsMember(es[..k], es[i].1, es[i].0);
    }
  }

  /** No forest has more edges among the first k than the greedy one. */
  lemma GreedyIsLargest(es: seq<Edge>, n: nat, f: set<nat>, k: nat)
    requires InRange(es, n) && Acyclic(es, f) && k <= |es|
    ensures |Upto(f, k)| <= |Upto(GreedySet(es, |es|), k)|
  {
    hide Joined, Acyclic, Symmetric, Leaders, Chosen, EdgeArcs, Merges, Greedy;
    var h := Upto(f, k);
    SubsetAcyclic(es, h, f);
    ForestSize(es, n, h);
    ChosenAmongFirst(es, h, k);
    LeadersMonotone(Chosen(es, h), EdgeArcs(es[..k]), n);
    SubsetSize(Leaders(EdgeArcs(es[..k]), n), Leaders(Chosen(es, h), n));
    GreedyCount(es, n, k);
    GreedyMembers(es, k);
    GreedyMembers(es, |es|);
    assert Upto(GreedySet(es, |es|), k) == GreedySet(es, k);
  }

  lemma {:induction false} SubsetSize<T>(a: set<T>, b: set<T>)
    requires a <= b
    ensures |a| <= |b|
  {
    if a != {} {
      var x :| x in a;
      SubsetSize(a - {x}, b - {x});
    }
  }

  lemma UptoStep(w: seq<real>, f: set<nat>, x: nat)
    requires (forall i :: i in f ==> i < |w|) && x < |w|
    ensures x in f ==>
              && |Upto(f, x + 1)| == |Upto(f, x)| + 1
              && SumOver(w, Upto(f, x + 1)) == SumOver(w, Upto(f, x)) + w[x]
    ensures x !in f ==> Upto(f, x + 1) == Upto(f, x)
  {
    if x in f {
      SumRemove(w, Upto(f, x + 1), x);
      assert Upto(f, x + 1) - {x} == Upto(f, x);
    }
  }

  /** The lead of t over f among the first k indices. */
  ghost function Lead(t: set<nat>, f: set<nat>, k: nat): int {
    |Upto(t, k)| - |Upto(f, k)|
  }

  ghost function Excess(w: seq<real>, t: set<nat>, f: set<nat>, k: nat): real
    requires forall i :: i in t || i in f ==> i < |w|
  {
    SumOver(w, Upto(t, k)) - SumOver(w, Upto(f, k))
  }

  lemma NoLead(w: seq<real>, t: set<nat>, f: set<nat>)
    requires forall i :: i in t || i in f ==> i < |w|
    ensures Lead(t, f, 0) == 0 && Excess(w, t, f, 0) == 0.0
  {
    assert Upto(t, 0) == {} && Upto(f, 0) == {};
  }

  lemma LeadStep(w: seq<real>, t: set<nat>, f: set<nat>, x: nat)
    requires forall i :: i in t || i in f ==> i < |w|
    requires x < |w|
    ensures var step := (if x in t then 1 else 0) - (if x in f then 1 else 0);
            && Lead(t, f, x + 1) == Lead(t, f, x) + step
            && Excess(w, t, f, x + 1) == Excess(w, t, f, x) + step as real * w[x]
  {
    hide SumOver;
    UptoStep(w, t, x);
    UptoStep(w, f, x);
  }

  lemma ScaleNonNegative(l: real, gap: real)
    requires l >= 0.0 && gap >= 0.0
    ensures l * gap >= 0.0
  {
  }

  lemma ScaleMonotone(l: real, low: real, high: real)
    requires l >= 0.0 && low <= high
    ensures l * low <= l * high
  {
    ScaleNonNegative(l, high - low);
    assert l * (high - low) == l * high - l * low;
  }

  lemma ScaleLead(lead: int, step: int, diff: real, low: real, high: real)
    requires lead >= 0 && diff <= lead as real * low && low <= high
    ensures diff + step as real * high <= (lead + step) as real * high
  {
    var l, s := lead as real, step as real;
    ScaleMonotone(l, low, high);
    assert (lead + step) as real == l + s;
    assert (l + s) * high == l * high + s * high;
  }

  /** While t never falls behind f, its excess weight is at most its lead times the largest
      weight so far. */
  lemma {:induction false} AheadIsLighter(w: seq<real>, t: set<nat>, f: set<nat>, k: nat)
    requires forall i :: i in t || i in f ==> i < |w|
    requires 0 < k <= |w|
    requires forall i, j :: 0 <= i < j < |w| ==> w[i] <= w[j]
    requires forall l: nat :: l <= k ==> Lead(t, f, l) >= 0
    ensures Excess(w, t, f, k) <= Lead(t, f, k) as real * w[k - 1]
  {
    hide Lead, Excess;
    LeadStep(w, t, f, k - 1);
    var step := (if k - 1 in t then 1 else 0) - (if k - 1 in f then 1 else 0);
    var low := if k == 1 then w[0] else w[k - 2];
    if k == 1 {
      NoLead(w, t, f);
    } else {
      AheadIsLighter(w, t, f, k - 1);
    }
    ScaleLead(Lead(t, f, k - 1), step, Excess(w, t, f, k - 1), low, w[k - 1]);
  }

  /** With edges in ascending order of weight, no spanning forest is lighter than the greedy one. */
  lemma GreedyIsLightest(es: seq<Edge>, w: seq<real>, n: nat, f: set<nat>)
    requires |w| == |es| && InRange(es, n)
    requires forall i, j :: 0 <= i < j < |w| ==> w[i] <= w[j]
    requires SpanningForest(es, f)
    ensures SpanningForest(es, GreedySet(es, |es|))
    ensures forall i :: i in GreedySet(es, |es|) ==> i < |w|
    ensures SumOver(w, GreedySet(es, |es|)) <= SumOver(w, f)
  {
    hide Joined, Acyclic, Symmetric, Leaders, Chosen, EdgeArcs, Merges, Greedy, SumOver;
    var m := |es|;
    var t := GreedySet(es, m);
    GreedySpans(es, m);
    GreedyMembers(es, m);
    assert es[..m] == es;
    ForestSize(es, n, f);
    ForestSize(es, n, t);
    SameLeaders(Chosen(es, f), Chosen(es, t), n);
    ForestIndices(es, f);
    assert Upto(t, m) == t && Upto(f, m) == f;
    if m > 0 {
      forall l: nat | l <= m ensures Lead(t, f, l) >= 0 {
        GreedyIsLargest(es, n, f, l);
      }
      AheadIsLighter(w, t, f, m);
    } else {
      assert f == {} && t == {};
    }
  }

  lemma ForestIndices(es: seq<Edge>, f: set<nat>)
    requires Acyclic(es, f)
    ensures forall i :: i in f ==> i < |es|
  {
  }

  lemma SameLeaders(g: Arcs, h: Arcs, n: nat)
    requires forall u: nat, v: nat :: Joined(g, u, v) <==> Joined(h, u, v)
    ensures Leaders(g, n) == Leaders(h, n)
  {
    forall v: nat ensures Least(g, v) == Least(h, v) {
      assert Joined(h, Least(g, v), v) && Joined(g, Least(h, v), v);
    }
  }
}
