/** Walks and connectivity in graphs whose vertices are natural numbers. */
module Graph {

  type Arcs = set<(nat, nat)>
  type Edge = (nat, nat)

  ghost predicate IsWalk(g: Arcs, p: seq<nat>) {
    |p| >= 1 && forall i :: 0 <= i < |p| - 1 ==> (p[i], p[i + 1]) in g
  }

  ghost predicate WalkBetween(g: Arcs, p: seq<nat>, u: nat, v: nat) {
    IsWalk(g, p) && p[0] == u && p[|p| - 1] == v
  }

  ghost predicate Joined(g: Arcs, u: nat, v: nat) {
    exists p :: WalkBetween(g, p, u, v)
  }

  ghost predicate Symmetric(g: Arcs) {
    forall a, b :: (a, b) in g ==> (b, a) in g
  }

  lemma JoinedRefl(g: Arcs, u: nat)
    ensures Joined(g, u, u)
  {
    assert WalkBetween(g, [u], u, u);
  }

  lemma JoinedStep(g: Arcs, u: nat, v: nat, w: nat)
    requires Joined(g, u, v) && (v, w) in g
    ensures Joined(g, u, w)
  {
    var p :| WalkBetween(g, p, u, v);
    assert WalkBetween(g, p + [w], u, w);
  }

  lemma JoinedArc(g: Arcs, u: nat, v: nat)
    requires (u, v) in g
    ensures Joined(g, u, v)
  {
    JoinedRefl(g, u);
    JoinedStep(g, u, u, v);
  }

  lemma JoinedTrans(g: Arcs, u: nat, v: nat, w: nat)
    requires Joined(g, u, v) && Joined(g, v, w)
    ensures Joined(g, u, w)
  {
    var p :| WalkBetween(g, p, u, v);
    var q :| WalkBetween(g, q, v, w);
    var r := p + q[1..];
    forall i | 0 <= i < |r| - 1 ensures (r[i], r[i + 1]) in g {
      if i < |p| - 1 {
      } else {
        assert r[i] == q[i - (|p| - 1)] && r[i + 1] == q[i + 1 - (|p| - 1)];
      }
    }
    assert WalkBetween(g, r, u, w);
  }

  lemma JoinedSym(g: Arcs, u: nat, v: nat)
    requires Symmetric(g) && Joined(g, u, v)
    ensures Joined(g, v, u)
  {
    var p :| WalkBetween(g, p, u, v);
    var q := seq(|p|, i requires 0 <= i < |p| => p[|p| - 1 - i]);
    forall i | 0 <= i < |q| - 1 ensures (q[i], q[i + 1]) in g {
      var k := |p| - 2 - i;
      assert (p[k], p[k + 1]) in g;
    }
    assert WalkBetween(g, q, v, u);
  }

  lemma JoinedMonotone(g: Arcs, h: Arcs, u: nat, v: nat)
    requires g <= h && Joined(g, u, v)
    ensures Joined(h, u, v)
  {
    var p :| WalkBetween(g, p, u, v);
    assert WalkBetween(h, p, u, v);
  }

  /** Walking never leaves a set that no arc leaves. */
  lemma {:induction false} WalkStaysInside(g: Arcs, inside: set<nat>, p: seq<nat>)
    requires forall a, b :: (a, b) in g && a in inside ==> b in inside
    requires IsWalk(g, p) && p[0] in inside
    ensures p[|p| - 1] in inside
  {
    if |p| > 1 {
      var q := p[..|p| - 1];
      WalkStaysInside(g, inside, q);
      assert (p[|p| - 2], p[|p| - 1]) in g;
    }
  }

  /** Joined vertices carry the same label when every arc does. */
  lemma JoinedSameLabel(g: Arcs, tag: seq<int>, u: nat, v: nat)
    requires forall a, b :: (a, b) in g ==> a < |tag| && b < |tag| && tag[a] == tag[b]
    requires u < |tag| && Joined(g, u, v)
    ensures v < |tag| && tag[u] == tag[v]
  {
    var p :| WalkBetween(g, p, u, v);
    var same := set x: nat | x < |tag| && tag[x] == tag[u];
    WalkStaysInside(g, same, p);
  }

  // ---------- undirected edge lists ----------

  ghost function EdgeArcs(edges: seq<Edge>): (g: Arcs)
    ensures Symmetric(g)
  {
    (set e | e in edges) + (set e | e in edges :: (e.1, e.0))
  }

  lemma EdgeArcsMember(edges: seq<Edge>, a: nat, b: nat)
    ensures (a, b) in EdgeArcs(edges) <==> (a, b) in edges || (b, a) in edges
  {
    if (b, a) in edges {
      assert ((b, a).1, (b, a).0) in EdgeArcs(edges);
    }
  }

  ghost predicate InRange(edges: seq<Edge>, n: nat) {
    forall i :: 0 <= i < |edges| ==> edges[i].0 < n && edges[i].1 < n
  }

  ghost function WithEdge(g: Arcs, a: nat, b: nat): (h: Arcs) {
    g + {(a, b), (b, a)}
  }

  lemma EdgeArcsSnoc(edges: seq<Edge>, k: nat)
    requires k < |edges|
    ensures EdgeArcs(edges[..k + 1]) == WithEdge(EdgeArcs(edges[..k]), edges[k].0, edges[k].1)
  {
    var longer, shorter := edges[..k + 1], edges[..k];
    assert longer == shorter + [edges[k]];
    var g := WithEdge(EdgeArcs(shorter), edges[k].0, edges[k].1);
    forall a: nat, b: nat ensures (a, b) in EdgeArcs(longer) <==> (a, b) in g {
      EdgeArcsMember(longer, a, b);
      EdgeArcsMember(shorter, a, b);
    }
  }

  /** x and y are joined directly or by crossing the edge a-b once. */
  ghost predicate JoinedAcross(g: Arcs, a: nat, b: nat, x: nat, y: nat) {
    || Joined(g, x, y)
    || (Joined(g, x, a) && Joined(g, b, y))
    || (Joined(g, x, b) && Joined(g, a, y))
  }

  lemma {:induction false} WalkAcross(g: Arcs, a: nat, b: nat, p: seq<nat>)
    requires IsWalk(WithEdge(g, a, b), p)
    ensures JoinedAcross(g, a, b, p[0], p[|p| - 1])
  {
    JoinedRefl(g, p[|p| - 1]);
    if |p| > 1 {
      var q := p[..|p| - 1];
      WalkAcross(g, a, b, q);
      var x, z, y := p[0], p[|p| - 2], p[|p| - 1];
      assert (z, y) in WithEdge(g, a, b);
      if (z, y) in g {
        if Joined(g, x, z) {
          JoinedStep(g, x, z, y);
        } else if Joined(g, x, a) && Joined(g, b, z) {
          JoinedStep(g, b, z, y);
        } else {
          JoinedStep(g, a, z, y);
        }
      }
    }
  }

  /** What one more edge changes. */
  lemma OneMoreEdge(g: Arcs, a: nat, b: nat, x: nat, y: nat)
    requires Symmetric(g)
    ensures Joined(WithEdge(g, a, b), x, y) <==> JoinedAcross(g, a, b, x, y)
  {
    var h := WithEdge(g, a, b);
    if Joined(h, x, y) {
      var p :| WalkBetween(h, p, x, y);
      WalkAcross(g, a, b, p);
    }
    if Joined(g, x, y) {
      JoinedMonotone(g, h, x, y);
    }
    if Joined(g, x, a) && Joined(g, b, y) {
      JoinedMonotone(g, h, x, a);
      JoinedStep(h, x, a, b);
      JoinedMonotone(g, h, b, y);
      JoinedTrans(h, x, b, y);
    }
    if Joined(g, x, b) && Joined(g, a, y) {
      JoinedMonotone(g, h, x, b);
      JoinedStep(h, x, b, a);
      JoinedMonotone(g, h, a, y);
      JoinedTrans(h, x, a, y);
    }
  }

  /** An edge between joined vertices changes nothing. */
  lemma RedundantEdge(g: Arcs, a: nat, b: nat, x: nat, y: nat)
    requires Symmetric(g) && Joined(g, a, b)
    ensures Joined(WithEdge(g, a, b), x, y) <==> Joined(g, x, y)
  {
    OneMoreEdge(g, a, b, x, y);
    JoinedSym(g, a, b);
    if Joined(g, x, a) && Joined(g, b, y) {
      JoinedTrans(g, x, a, b);
      JoinedTrans(g, x, b, y);
    }
    if Joined(g, x, b) && Joined(g, a, y) {
      JoinedTrans(g, x, b, a);
      JoinedTrans(g, x, a, y);
    }
  }

  // ---------- components by their least vertices ----------

  /** The least vertex of the component of v. */
  ghost function Least(g: Arcs, v: nat): (w: nat)
    ensures w <= v && Joined(g, w, v)
    ensures forall x: nat :: Joined(g, x, v) ==> w <= x
  {
    JoinedRefl(g, v);
    LeastExists(g, v, v);
    var w: nat :| Joined(g, w, v) && forall x: nat :: Joined(g, x, v) ==> w <= x;
    w
  }

  lemma {:induction false} LeastExists(g: Arcs, v: nat, bound: nat)
    requires Joined(g, bound, v)
    ensures exists w: nat :: Joined(g, w, v) && forall x: nat :: Joined(g, x, v) ==> w <= x
  {
    if x: nat :| x < bound && Joined(g, x, v) {
      LeastExists(g, v, x);
    }
  }

  lemma JoinedIffSameLeast(g: Arcs, u: nat, v: nat)
    requires Symmetric(g)
    ensures Joined(g, u, v) <==> Least(g, u) == Least(g, v)
  {
    var a, b := Least(g, u), Least(g, v);
    JoinedSym(g, a, u);
    JoinedSym(g, b, v);
    if Joined(g, u, v) {
      JoinedTrans(g, a, u, v);
      JoinedSym(g, u, v);
      JoinedTrans(g, b, v, u);
    }
    if a == b {
      JoinedTrans(g, u, a, v);
    }
  }

  /** The least vertices below n: one for each component of a graph on n vertices. */
  ghost function Leaders(g: Arcs, n: nat): set<nat> {
    set v: nat | v < n && Least(g, v) == v
  }

  lemma LeastIsLeader(g: Arcs, n: nat, v: nat)
    requires Symmetric(g) && v < n
    ensures Least(g, v) in Leaders(g, n)
  {
    JoinedIffSameLeast(g, Least(g, v), v);
  }

  /** The larger of the least vertices of two components: the one an edge between them retires. */
  ghost function Younger(g: Arcs, u: nat, v: nat): nat {
    if Least(g, u) <= Least(g, v) then Least(g, v) else Least(g, u)
  }

  /** Merging two components retires exactly the larger of their least vertices. */
  lemma MergeRetiresYounger(g: Arcs, n: nat, u: nat, v: nat)
    requires Symmetric(g) && u < n && v < n && !Joined(g, u, v)
    ensures Younger(g, u, v) in Leaders(g, n)
    ensures Leaders(WithEdge(g, u, v), n) == Leaders(g, n) - {Younger(g, u, v)}
  {
    var h := WithEdge(g, u, v);
    var a, b := Least(g, u), Least(g, v);
    LeastIsLeader(g, n, u);
    LeastIsLeader(g, n, v);
    JoinedIffSameLeast(g, u, v);
    forall w: nat | w < n
      ensures Least(h, w) == w <==> Least(g, w) == w && w != Younger(g, u, v)
    {
      MergedLeast(g, u, v, w);
    }
  }

  lemma MergedLeast(g: Arcs, u: nat, v: nat, w: nat)
    requires Symmetric(g) && !Joined(g, u, v)
    ensures var a := Least(g, u); var b := Least(g, v);
            Least(WithEdge(g, u, v), w) ==
            if Least(g, w) == a || Least(g, w) == b then (if a <= b then a else b) else Least(g, w)
  {
    var h := WithEdge(g, u, v);
    var a, b, c := Least(g, u), Least(g, v), Least(g, w);
    forall x: nat ensures Joined(h, x, w) <==>
      Least(g, x) == c || (Least(g, x) == a && b == c) || (Least(g, x) == b && a == c)
    {
      OneMoreEdge(g, u, v, x, w);
      JoinedIffSameLeast(g, x, w);
      JoinedIffSameLeast(g, x, u);
      JoinedIffSameLeast(g, x, v);
      JoinedIffSameLeast(g, v, w);
      JoinedIffSameLeast(g, u, w);
    }
    LeastOfLeast(g, u);
    LeastOfLeast(g, v);
    LeastOfLeast(g, w);
    var m := if c == a || c == b then (if a <= b then a else b) else c;
    assert Joined(h, m, w);
    assert Joined(h, Least(h, w), w);
    assert Least(g, Least(h, w)) <= Least(h, w);
  }

  lemma LeastOfLeast(g: Arcs, v: nat)
    requires Symmetric(g)
    ensures Least(g, Least(g, v)) == Least(g, v)
  {
    JoinedIffSameLeast(g, Least(g, v), v);
  }

  lemma RedundantKeepsLeaders(g: Arcs, n: nat, u: nat, v: nat)
    requires Symmetric(g) && Joined(g, u, v)
    ensures Leaders(WithEdge(g, u, v), n) == Leaders(g, n)
  {
    var h := WithEdge(g, u, v);
    forall w: nat | w < n ensures Least(h, w) == Least(g, w) {
      RedundantEdge(g, u, v, Least(h, w), w);
      RedundantEdge(g, u, v, Least(g, w), w);
    }
  }

  lemma LeadersMonotone(g: Arcs, h: Arcs, n: nat)
    requires g <= h
    ensures Leaders(h, n) <= Leaders(g, n)
  {
    forall v: nat | v in Leaders(h, n) ensures v in Leaders(g, n) {
      JoinedMonotone(g, h, Least(g, v), v);
    }
  }

  /** The vertices of a graph on n vertices. */
  ghost function Below(n: nat): (s: set<nat>)
    ensures |s| == n
    ensures forall v: nat :: v in s <==> v < n
  {
    if n == 0 then {} else Below(n - 1) + {n - 1}
  }

  lemma NothingJoined(g: Arcs, u: nat, v: nat)
    requires g == {} && Joined(g, u, v)
    ensures u == v
  {
    var p :| WalkBetween(g, p, u, v);
    WalkStaysInside(g, {u}, p);
  }

  lemma LeadersOfNothing(n: nat)
    ensures Leaders({}, n) == Below(n)
  {
    var g: Arcs := {};
    forall v: nat ensures Least(g, v) == v {
      NothingJoined(g, Least(g, v), v);
    }
  }
}
