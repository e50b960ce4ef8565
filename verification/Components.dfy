/** Connected components and single linkage: union-find labels against connectivity. */
module Components {
  import opened Wrappers
  import opened Graph
  import opened UnionFind
  import opened Sorting

  /** Equal labels exactly for joined vertices. */
  ghost predicate Labels(g: Arcs, n: nat, labels: seq<nat>) {
    |labels| == n && forall u: nat, v: nat :: u < n && v < n ==> (labels[u] == labels[v] <==> Joined(g, u, v))
  }

  /** The labels used are 0..c-1. */
  ghost predicate Dense(labels: seq<nat>, c: nat) {
    && (forall u :: 0 <= u < |labels| ==> labels[u] < c)
    && (forall l: nat :: l < c ==> l in labels)
  }

  lemma {:induction false} ImageSize(s: set<nat>, f: seq<nat>, image: set<nat>)
    requires forall v :: v in s ==> v < |f|
    requires forall u, v :: u in s && v in s && u != v ==> f[u] != f[v]
    requires image == set v | v in s :: f[v]
    ensures |image| == |s|
  {
    if s != {} {
      var v :| v in s;
      ImageSize(s - {v}, f, image - {f[v]});
    }
  }

  /** Dense labels are as many as there are components. */
  lemma LabelCount(g: Arcs, n: nat, labels: seq<nat>, c: nat)
    requires Symmetric(g) && Labels(g, n, labels) && Dense(labels, c)
    ensures c == |Leaders(g, n)|
  {
    var leaders := Leaders(g, n);
    forall u, v | u in leaders && v in leaders && u != v ensures labels[u] != labels[v] {
      JoinedIffSameLeast(g, u, v);
    }
    var image := set v | v in leaders :: labels[v];
    forall l: nat ensures l in image <==> l < c {
      if l < c {
        assert l in labels;
        var u :| 0 <= u < n && labels[u] == l;
        LeastIsLeader(g, n, u);
        assert labels[Least(g, u)] == l;
      }
    }
    ImageSize(leaders, labels, image);
    assert image == Below(c);
  }

  /** Uniting the endpoints of the next edge keeps the classes equal to the components. */
  method UniteEdge(sets: DisjointSets, edges: seq<Edge>, k: nat)
    requires sets.Valid() && k < |edges| && InRange(edges, sets.parent.Length)
    requires Represents(sets.rep, EdgeArcs(edges[..k]))
    modifies sets`rep, sets`height, sets.parent
    ensures sets.Valid() && Represents(sets.rep, EdgeArcs(edges[..k + 1]))
    ensures sets.rep == Merged(old(sets.rep), edges[k].0, edges[k].1)
  {
    MergeRepresents(sets.rep, EdgeArcs(edges[..k]), edges[k].0, edges[k].1);
    EdgeArcsSnoc(edges, k);
    hide Represents, EdgeArcs, Symmetric;
    sets.Union(edges[k].0, edges[k].1);
  }

  lemma NothingRepresented(n: nat, edges: seq<Edge>)
    ensures Represents(seq(n, i => i), EdgeArcs(edges[..0]))
  {
    IdentityRepresents(n);
    assert EdgeArcs(edges[..0]) == {};
  }

  /** The root of every vertex after the first k edges: the second end's class takes over the root of
      the first end. */
  ghost function Roots(edges: seq<Edge>, n: nat, k: nat): (rep: seq<nat>)
    requires k <= |edges| && InRange(edges, n)
    ensures |rep| == n
  {
    if k == 0 then seq(n, i => i) else Merged(Roots(edges, n, k - 1), edges[k - 1].0, edges[k - 1].1)
  }

  /** Unite the endpoints of every edge. */
  method UniteAll(sets: DisjointSets, edges: seq<Edge>)
    requires sets.Valid() && sets.rep == seq(sets.parent.Length, i => i)
    requires InRange(edges, sets.parent.Length)
    modifies sets`rep, sets`height, sets.parent
    ensures sets.Valid() && Represents(sets.rep, EdgeArcs(edges))
    ensures sets.rep == Roots(edges, sets.parent.Length, |edges|)
  {
    hide Represents, EdgeArcs, Symmetric;
    NothingRepresented(sets.parent.Length, edges);
    for i := 0 to |edges|
      invariant sets.Valid() && Represents(sets.rep, EdgeArcs(edges[..i]))
      invariant sets.rep == Roots(edges, sets.parent.Length, i)
    {
      UniteEdge(sets, edges, i);
    }
    assert edges[..|edges|] == edges;
  }

  // ---------- labels in order of first appearance ----------

  /** labels[..i] renames the roots rep[..i] through the dictionary. */
  ghost predicate Renamed(rep: seq<nat>, labels: seq<nat>, dict: map<nat, nat>, i: nat, next: nat) {
    && |labels| == i <= |rep|
    && (forall u :: 0 <= u < i ==> rep[u] in dict && labels[u] == dict[rep[u]])
    && (forall root :: root in dict ==> dict[root] < next && root in rep[..i])
    && (forall r, s :: r in dict && s in dict && r != s ==> dict[r] != dict[s])
  }

  /** The labels are 0..next-1 and each first appears right after the one before it has. */
  ghost predicate InOrder(labels: seq<nat>, next: nat) {
    if labels == [] then next == 0
    else
      var k := |labels| - 1;
      || (labels[k] < next && InOrder(labels[..k], next))
      || (labels[k] == next - 1 && InOrder(labels[..k], next - 1))
  }

  lemma {:induction false} InOrderDense(labels: seq<nat>, next: nat)
    requires InOrder(labels, next)
    ensures Dense(labels, next)
  {
    if labels != [] {
      var k := |labels| - 1;
      assert labels == labels[..k] + [labels[k]];
      if labels[k] < next && InOrder(labels[..k], next) {
        InOrderDense(labels[..k], next);
      } else {
        InOrderDense(labels[..k], next - 1);
      }
    }
  }

  lemma RenamedNone(rep: seq<nat>)
    ensures Renamed(rep, [], map[], 0, 0) && InOrder([], 0)
  {
  }

  lemma RenameNext(rep: seq<nat>, labels: seq<nat>, dict: map<nat, nat>, i: nat, next: nat)
    requires Renamed(rep, labels, dict, i, next) && i < |rep|
    ensures rep[i] in dict ==> Renamed(rep, labels + [dict[rep[i]]], dict, i + 1, next)
    ensures rep[i] !in dict ==> Renamed(rep, labels + [next], dict[rep[i] := next], i + 1, next + 1)
  {
    assert rep[..i + 1] == rep[..i] + [rep[i]];
  }

  lemma InOrderNext(labels: seq<nat>, next: nat, last: nat)
    requires InOrder(labels, next) && last <= next
    ensures InOrder(labels + [last], if last == next then next + 1 else next)
  {
    assert (labels + [last])[..|labels|] == labels;
  }

  ghost predicate SameClasses(rep: seq<nat>, labels: seq<nat>) {
    && |labels| == |rep|
    && forall u, v :: 0 <= u < |rep| && 0 <= v < |rep| ==> (labels[u] == labels[v] <==> rep[u] == rep[v])
  }

  lemma RenamedClasses(rep: seq<nat>, labels: seq<nat>, dict: map<nat, nat>, next: nat)
    requires Renamed(rep, labels, dict, |rep|, next)
    ensures SameClasses(rep, labels)
  {
  }

  lemma ClassLabels(g: Arcs, rep: seq<nat>, labels: seq<nat>, c: nat)
    requires Symmetric(g) && Represents(rep, g)
    requires SameClasses(rep, labels) && Dense(labels, c)
    ensures Labels(g, |rep|, labels) && c == |Leaders(g, |rep|)|
  {
    LabelCount(g, |rep|, labels, c);
  }

  method ConnectedComponents(edges: seq<Edge>, n: int) returns (r: Result<seq<nat>>)
    requires n >= 0 ==> InRange(edges, n)
    ensures n < 0 ==> r == Failure(NegativeVertexCount)
    ensures n >= 0 ==> r.Success? && Labels(EdgeArcs(edges), n, r.value)
    ensures n >= 0 ==> InOrder(r.value, |Leaders(EdgeArcs(edges), n)|)
    ensures n >= 0 ==> Dense(r.value, |Leaders(EdgeArcs(edges), n)|)
  {
    if n < 0 { return Failure(NegativeVertexCount); }
    var sets := new DisjointSets(n);
    UniteAll(sets, edges);
    var labels, c := LabelByRoot(sets);
    InOrderDense(labels[..], c);
    ClassLabels(EdgeArcs(edges), sets.rep, labels[..], c);
    r := Success(labels[..]);
  }

  /** Look the root up, entering it with the next label when it is new. */
  method LabelOf(root: nat, dict: map<nat, nat>, next: nat, ghost rep: seq<nat>, ghost done: seq<nat>)
    returns (lab: nat, dict': map<nat, nat>, next': nat)
    requires |done| < |rep| && rep[|done|] == root
    requires Renamed(rep, done, dict, |done|, next) && InOrder(done, next)
    ensures Renamed(rep, done + [lab], dict', |done| + 1, next') && InOrder(done + [lab], next')
  {
    RenameNext(rep, done, dict, |done|, next);
    InOrderNext(done, next, if root in dict then dict[root] else next);
    dict', next' := dict, next;
    if root !in dict {
      dict' := dict[root := next];
      next' := next + 1;
    }
    lab := dict'[root];
  }

  method LabelByRoot(sets: DisjointSets) returns (labels: array<nat>, next: nat)
    requires sets.Valid()
    modifies sets.parent
    ensures sets.Valid() && fresh(labels)
    ensures SameClasses(sets.rep, labels[..]) && InOrder(labels[..], next)
  {
    hide Renamed, InOrder;
    RenamedNone(sets.rep);
    labels := new nat[sets.parent.Length](i => 0);
    var dict: map<nat, nat> := map[];
    next := 0;
    ghost var done: seq<nat> := [];
    ghost var rep := sets.rep;
    for i := 0 to labels.Length
      invariant sets.Valid() && sets.rep == rep && |done| == i
      invariant forall u :: 0 <= u < i ==> labels[u] == done[u]
      invariant Renamed(rep, done, dict, i, next) && InOrder(done, next)
    {
      var root := sets.Find(i);
      var lab;
      lab, dict, next := LabelOf(root, dict, next, rep, done);
      labels[i] := lab;
      done := done + [lab];
    }
    assert labels[..] == done;
    RenamedClasses(rep, done, dict, next);
  }

  // ---------- labels by ascending root ----------

  /** The values of s, each once, in ascending order. */
  method Unique(s: seq<nat>) returns (u: seq<nat>)
    ensures Increasing(u)
    ensures forall x :: x in u <==> x in s
  {
    u := [];
    for n := 0 to |s|
      invariant Increasing(u)
      invariant forall x :: x in u <==> x in s[..n]
    {
      assert s[..n + 1] == s[..n] + [s[n]];
      u := InsertUnique(u, s[n]);
    }
    assert s[..|s|] == s;
  }

  lemma InsertedIncreasing(u: seq<nat>, p: nat, x: nat)
    requires Increasing(u) && p <= |u|
    requires forall i :: 0 <= i < p ==> u[i] < x
    requires forall i :: p <= i < |u| ==> x < u[i]
    ensures Increasing(u[..p] + [x] + u[p..])
    ensures forall y :: y in u[..p] + [x] + u[p..] <==> y in u || y == x
  {
    assert u == u[..p] + u[p..];
  }

  method InsertUnique(u: seq<nat>, x: nat) returns (r: seq<nat>)
    requires Increasing(u)
    ensures Increasing(r)
    ensures forall y :: y in r <==> y in u || y == x
  {
    var p := |u|;
    while p > 0 && u[p - 1] >= x
      invariant 0 <= p <= |u|
      invariant forall i :: p <= i < |u| ==> u[i] >= x
    {
      p := p - 1;
    }
    if p < |u| && u[p] == x {
      r := u;
    } else {
      InsertedIncreasing(u, p, x);
      r := u[..p] + [x] + u[p..];
    }
  }

  /** The position of each value in an ascending list. */
  function Positions(u: seq<nat>): (dict: map<nat, nat>)
    requires Increasing(u)
    ensures forall k :: 0 <= k < |u| ==> u[k] in dict && dict[u[k]] == k
  {
    if u == [] then map[]
    else
      var last := |u| - 1;
      Positions(u[..last])[u[last] := last]
  }

  method ConnectedComponentsFast(edges: seq<(int, int)>, n: int) returns (r: Result<seq<nat>>)
    ensures n < 0 ==> r == Failure(NegativeVertexCount)
    ensures n >= 0 ==>
              (r == Failure(EdgeOutOfBounds) <==>
               exists i :: 0 <= i < |edges| && !(0 <= edges[i].0 < n && 0 <= edges[i].1 < n))
    ensures r.Failure? ==> r == Failure(NegativeVertexCount) || r == Failure(EdgeOutOfBounds)
    ensures n >= 0 && ValidEdges(edges, n) ==>
              && r.Success? && Labels(EdgeArcs(AsEdges(edges, n)), n, r.value)
              && Dense(r.value, |Leaders(EdgeArcs(AsEdges(edges, n)), n)|)
              && AscendsWith(r.value, Roots(AsEdges(edges, n), n, |edges|))
    ensures r.Success? ==> AgreesOnEnds(r.value, edges, n)
    ensures r.Success? ==> forall tag: seq<int> :: AgreesOnEnds(tag, edges, n) ==> ConstantOn(r.value, tag)
  {
    if n >= 0 && ValidEdges(edges, n) { LabelsAreFinest(edges, n); }
    if n < 0 { return Failure(NegativeVertexCount); }
    if !ValidEdges(edges, n) { return Failure(EdgeOutOfBounds); }
    var es := AsEdges(edges, n);
    ghost var g := EdgeArcs(es);
    if edges == [] {
      IdentityRepresents(n);
      assert g == {};
      forall l: nat | l < n ensures l in Iota(n) { assert Iota(n)[l] == l; }
      LabelCount(g, n, Iota(n), n);
      return Success(Iota(n));
    }
    var sets := new DisjointSets(n);
    UniteAll(sets, es);
    var roots := AllRoots(sets);
    var labels, c := LabelByPosition(roots);
    ClassLabels(g, sets.rep, labels, c);
    r := Success(labels);
  }

  /** A labelling of 0..n-1 that gives both ends of every pair the same label. */
  ghost predicate AgreesOnEnds(tag: seq<int>, edges: seq<(int, int)>, n: int) {
    |tag| == n && forall i :: 0 <= i < |edges| ==>
      0 <= edges[i].0 < n && 0 <= edges[i].1 < n && tag[edges[i].0] == tag[edges[i].1]
  }

  /** tag is constant on each label class. */
  ghost predicate ConstantOn(labels: seq<int>, tag: seq<int>) {
    |labels| == |tag| && forall u, v :: 0 <= u < |tag| && 0 <= v < |tag| && labels[u] == labels[v] ==> tag[u] == tag[v]
  }

  /** Component labels agree on the ends of every given pair, and are the finest that do. */
  lemma LabelsAreFinest(edges: seq<(int, int)>, n: nat)
    requires ValidEdges(edges, n)
    ensures forall labels: seq<nat> :: Labels(EdgeArcs(AsEdges(edges, n)), n, labels) ==> AgreesOnEnds(labels, edges, n)
    ensures forall labels: seq<nat>, tag: seq<int> ::
              Labels(EdgeArcs(AsEdges(edges, n)), n, labels) && AgreesOnEnds(tag, edges, n) ==> ConstantOn(labels, tag)
  {
    var es := AsEdges(edges, n);
    var g := EdgeArcs(es);
    forall labels: seq<nat> | Labels(g, n, labels) ensures AgreesOnEnds(labels, edges, n) {
      forall i | 0 <= i < |edges| ensures labels[edges[i].0] == labels[edges[i].1] {
        assert es[i] in es;
        EdgeArcsMember(es, edges[i].0, edges[i].1);
        JoinedArc(g, edges[i].0, edges[i].1);
      }
    }
    forall labels: seq<nat>, tag: seq<int> | Labels(g, n, labels) && AgreesOnEnds(tag, edges, n)
      ensures ConstantOn(labels, tag)
    {
      forall a, b | (a, b) in g ensures a < |tag| && b < |tag| && tag[a] == tag[b] {
        EdgeArcsMember(es, a, b);
      }
      forall u: nat, v: nat | u < n && v < n && labels[u] == labels[v] ensures tag[u] == tag[v] {
        JoinedSameLabel(g, tag, u, v);
      }
    }
  }

  method AllRoots(sets: DisjointSets) returns (roots: seq<nat>)
    requires sets.Valid()
    modifies sets.parent
    ensures sets.Valid() && roots == sets.rep
  {
    roots := [];
    for i := 0 to sets.parent.Length
      invariant sets.Valid() && roots == sets.rep[..i]
    {
      var root := sets.Find(i);
      roots := roots + [root];
    }
  }

  method LabelByPosition(roots: seq<nat>) returns (labels: seq<nat>, c: nat)
    ensures SameClasses(roots, labels) && Dense(labels, c) && AscendsWith(labels, roots)
  {
    var unique := Unique(roots);
    RootPositions(roots, unique);
    labels := PositionLabels(roots, unique);
    c := |unique|;
  }

  /** Labels are numbered in ascending order of the roots. */
  ghost predicate AscendsWith(labels: seq<nat>, rep: seq<nat>) {
    && |labels| == |rep|
    && forall u, v :: 0 <= u < |rep| && 0 <= v < |rep| ==> (labels[u] < labels[v] <==> rep[u] < rep[v])
  }

  function PositionLabels(rep: seq<nat>, unique: seq<nat>): (labels: seq<nat>)
    requires Increasing(unique)
    requires forall u :: 0 <= u < |rep| ==> rep[u] in Positions(unique)
  {
    seq(|rep|, u requires 0 <= u < |rep| => Positions(unique)[rep[u]])
  }

  lemma RootPositions(rep: seq<nat>, unique: seq<nat>)
    requires Increasing(unique)
    requires forall x :: x in unique <==> x in rep
    ensures forall u :: 0 <= u < |rep| ==> rep[u] in Positions(unique)
    ensures var labels := PositionLabels(rep, unique);
            Dense(labels, |unique|) && SameClasses(rep, labels) && AscendsWith(labels, rep)
  {
    var dict := Positions(unique);
    forall u | 0 <= u < |rep| ensures rep[u] in dict && dict[rep[u]] < |unique| && unique[dict[rep[u]]] == rep[u] {
      assert rep[u] in unique;
    }
    var labels := PositionLabels(rep, unique);
    forall l: nat | l < |unique| ensures l in labels {
      assert unique[l] in rep;
      var u :| 0 <= u < |rep| && rep[u] == unique[l];
      assert labels[u] == l;
    }
  }

  predicate ValidEdges(edges: seq<(int, int)>, n: int) {
    forall i :: 0 <= i < |edges| ==> 0 <= edges[i].0 < n && 0 <= edges[i].1 < n
  }

  function AsEdges(edges: seq<(int, int)>, n: int): (es: seq<Edge>)
    requires ValidEdges(edges, n)
    ensures n >= 0 ==> InRange(es, n)
    ensures |es| == |edges| && forall i :: 0 <= i < |edges| ==> es[i].0 == edges[i].0 && es[i].1 == edges[i].1
  {
    seq(|edges|, i requires 0 <= i < |edges| => (edges[i].0 as nat, edges[i].1 as nat))
  }
}
