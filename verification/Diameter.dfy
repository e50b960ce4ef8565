/** The diameter of a Mapper graph by breadth-first search from every node. */
module Diameter {
  import opened Graph

  datatype MapperGraph = MapperGraph(nodes: nat, edges: seq<Edge>, adjacency: seq<seq<nat>>)

  // ---------- adjacency ----------

  /** Steps to listed neighbours that are nodes. */
  ghost function ListArcs(adjacency: seq<seq<nat>>): (g: Arcs)
  {
    set a: nat, k: nat | a < |adjacency| && k < |adjacency[a]| && adjacency[a][k] < |adjacency| :: (a, adjacency[a][k])
  }

  lemma ListArcsMember(adjacency: seq<seq<nat>>, a: nat, b: nat)
    ensures (a, b) in ListArcs(adjacency) <==> a < |adjacency| && b < |adjacency| && b in adjacency[a]
  {
    if a < |adjacency| && b < |adjacency| && b in adjacency[a] {
      var k :| 0 <= k < |adjacency[a]| && adjacency[a][k] == b;
      assert (a, adjacency[a][k]) in ListArcs(adjacency);
    }
  }

  /** Edges with both ends among the nodes, in both directions. */
  ghost function NodeArcs(n: nat, edges: seq<Edge>): (g: Arcs) {
    set e | e in EdgeArcs(edges) && e.0 < n && e.1 < n
  }

  /** The arcs the searches walk: the adjacency lists when there is one for each node, else the
      edges. */
  ghost function GraphArcs(graph: MapperGraph): (g: Arcs) {
    if |graph.adjacency| == graph.nodes then ListArcs(graph.adjacency) else NodeArcs(graph.nodes, graph.edges)
  }

  ghost predicate ListsEdges(adjacency: seq<seq<nat>>, n: nat, edges: seq<Edge>) {
    && |adjacency| == n
    && forall a: nat, b: nat :: a < n ==> (b in adjacency[a] <==> b < n && ((a, b) in edges || (b, a) in edges))
  }

  lemma ListOne(adjacency: seq<seq<nat>>, n: nat, edges: seq<Edge>, e: Edge)
    requires ListsEdges(adjacency, n, edges)
    ensures e.0 >= n || e.1 >= n ==> ListsEdges(adjacency, n, edges + [e])
    ensures e.0 < n && e.1 < n ==>
              var one := adjacency[e.0 := adjacency[e.0] + [e.1]];
              ListsEdges(one[e.1 := one[e.1] + [e.0]], n, edges + [e])
  {
  }

  method BuildAdjacency(n: nat, edges: seq<Edge>) returns (adjacency: seq<seq<nat>>)
    ensures |adjacency| == n && ListArcs(adjacency) == NodeArcs(n, edges)
  {
    adjacency := seq(n, _ => []);
    for i := 0 to |edges|
      invariant ListsEdges(adjacency, n, edges[..i])
    {
      assert edges[..i + 1] == edges[..i] + [edges[i]];
      ListOne(adjacency, n, edges[..i], edges[i]);
      hide ListsEdges;
      var (source, target) := edges[i];
      if source >= n || target >= n { continue; }
      adjacency := adjacency[source := adjacency[source] + [target]];
      adjacency := adjacency[target := adjacency[target] + [source]];
    }
    assert edges[..|edges|] == edges;
    forall a: nat, b: nat ensures (a, b) in ListArcs(adjacency) <==> (a, b) in NodeArcs(n, edges) {
      ListArcsMember(adjacency, a, b);
      EdgeArcsMember(edges, a, b);
    }
  }

  // ---------- distances ----------

  ghost predicate WalkOfLength(g: Arcs, u: nat, v: nat, d: nat) {
    exists p :: WalkBetween(g, p, u, v) && |p| == d + 1
  }

  /** d is the length of a shortest walk from u to v. */
  ghost predicate IsDistance(g: Arcs, u: nat, v: nat, d: nat) {
    WalkOfLength(g, u, v, d) && forall e: nat :: WalkOfLength(g, u, v, e) ==> d <= e
  }

  lemma WalkStep(g: Arcs, u: nat, v: nat, w: nat, d: nat)
    requires WalkOfLength(g, u, v, d) && (v, w) in g
    ensures WalkOfLength(g, u, w, d + 1)
  {
    var p :| WalkBetween(g, p, u, v) && |p| == d + 1;
    var q := p + [w];
    assert WalkBetween(g, q, u, w) && |q| == d + 2;
  }

  // ---------- the search ----------

  /** distance[v] is n while v is unreached; reached vertices have a walk of that length. */
  ghost predicate Sound(g: Arcs, n: nat, start: nat, distance: seq<nat>) {
    && |distance| == n && start < n && distance[start] == 0
    && (forall v: nat :: v < n ==> distance[v] <= n)
    && (forall v: nat :: v < n && distance[v] < n ==> WalkOfLength(g, start, v, distance[v]))
    && (forall v: nat :: v < n && 0 < distance[v] < n ==> HasLevel(distance, distance[v] - 1))
  }

  ghost predicate HasLevel(distance: seq<nat>, d: nat) {
    exists v :: 0 <= v < |distance| && distance[v] == d
  }

  /** Expanded vertices have all neighbours reached within one more step. */
  ghost predicate Expanded(g: Arcs, n: nat, distance: seq<nat>, v: nat)
    requires |distance| == n && v < n
  {
    forall w: nat :: w < n && (v, w) in g ==> distance[w] < n && distance[w] <= distance[v] + 1
  }

  /** The queue is in order of distance, and nothing reached is more than one step past bound,
      the distance of its front. */
  ghost predicate QueueInOrder(n: nat, distance: seq<nat>, queue: seq<nat>, bound: nat)
    requires |distance| == n
  {
    && (forall v :: v in queue ==> v < n && bound <= distance[v] < n)
    && (forall i, j :: 0 <= i < j < |queue| && queue[i] < n && queue[j] < n ==>
      distance[queue[i]] <= distance[queue[j]])
    && (forall v: nat :: v < n && distance[v] < n ==> distance[v] <= bound + 1)
  }

  /** Every reached vertex is expanded or still to be. */
  ghost predicate AllExpanded(g: Arcs, n: nat, distance: seq<nat>, waiting: set<nat>)
    requires |distance| == n
  {
    forall v: nat :: v < n && distance[v] < n && v !in waiting ==> Expanded(g, n, distance, v)
  }

  ghost function Members(queue: seq<nat>): (s: set<nat>) {
    set v | v in queue
  }

  /** Between two expansions. */
  ghost predicate Searching(g: Arcs, n: nat, start: nat, distance: seq<nat>, queue: seq<nat>, bound: nat) {
    && Sound(g, n, start, distance)
    && QueueInOrder(n, distance, queue, bound)
    && AllExpanded(g, n, distance, Members(queue))
  }

  lemma {:induction false} LevelsBelow(g: Arcs, n: nat, start: nat, distance: seq<nat>, d: nat, e: nat)
    requires Sound(g, n, start, distance) && HasLevel(distance, d) && e <= d < n
    ensures HasLevel(distance, e)
  {
    if e < d {
      var v: nat :| v < n && distance[v] == d;
      assert HasLevel(distance, distance[v] - 1);
      LevelsBelow(g, n, start, distance, d - 1, e);
    }
  }

  /** The values of f on s are no more than the members of s. */
  lemma {:induction false} ImageNoLarger(f: seq<nat>, s: set<nat>, image: set<nat>)
    requires forall v :: v in s ==> v < |f|
    requires image <= set v | v in s && v < |f| :: f[v]
    ensures |image| <= |s|
  {
    if image != {} {
      var d :| d in image;
      var v :| v in s && f[v] == d;
      ImageNoLarger(f, s - {v}, image - {d});
    }
  }

  /** While a vertex is unreached there is room for one more level below the sentinel. */
  lemma SentinelSafe(g: Arcs, n: nat, start: nat, distance: seq<nat>, v: nat, w: nat)
    requires Sound(g, n, start, distance) && v < n && w < n && distance[v] < n && distance[w] == n
    ensures distance[v] + 1 < n
  {
    assert HasLevel(distance, distance[v]);
    forall e: nat | e <= distance[v] ensures HasLevel(distance, e) {
      LevelsBelow(g, n, start, distance, distance[v], e);
    }
    LevelsFit(distance, distance[v], w);
  }

  /** d + 1 levels in use and a vertex beyond them need d + 2 vertices. */
  lemma LevelsFit(distance: seq<nat>, d: nat, w: nat)
    requires w < |distance| && distance[w] > d
    requires forall e: nat :: e <= d ==> HasLevel(distance, e)
    ensures d + 1 < |distance|
  {
    var reached, levels := Below(|distance|) - {w}, Below(d + 1);
    var used := set v | v in reached && v < |distance| :: distance[v];
    forall e: nat | e in levels ensures e in used {
      assert HasLevel(distance, e);
      var x: nat :| x < |distance| && distance[x] == e;
      assert x in reached && distance[x] in used;
    }
    hide HasLevel;
    ImageNoLarger(distance, reached, levels);
  }

  /** Reach w from v: all invariants survive. */
  lemma ReachOne(g: Arcs, n: nat, start: nat, distance: seq<nat>, v: nat, w: nat)
    requires Sound(g, n, start, distance) && v < n && w < n && distance[v] < n && distance[w] == n
    requires (v, w) in g
    ensures distance[v] + 1 < n == |distance| && Sound(g, n, start, distance[w := distance[v] + 1])
  {
    SentinelSafe(g, n, start, distance, v, w);
    WalkStep(g, start, v, w, distance[v]);
    var after := distance[w := distance[v] + 1];
    forall x: nat | x < n && 0 < after[x] < n ensures HasLevel(after, after[x] - 1) {
      if x == w {
        assert after[v] == after[x] - 1;
      } else {
        assert HasLevel(distance, distance[x] - 1);
        var y :| 0 <= y < n && distance[y] == distance[x] - 1;
        assert after[y] == after[x] - 1;
      }
    }
  }

  ghost predicate ListedReached(n: nat, distance: seq<nat>, listed: seq<nat>, k: nat)
    requires |distance| == n && k <= |listed|
  {
    forall i :: 0 <= i < k && listed[i] < n ==> distance[listed[i]] < n
  }

  /** Expanding current, with its first k listed neighbours done. */
  ghost predicate Expanding(g: Arcs, n: nat, start: nat, distance: seq<nat>, queue: seq<nat>, current: nat,
      listed: seq<nat>, k: nat)
    requires k <= |listed|
  {
    && Sound(g, n, start, distance) && |distance| == n && current < n && distance[current] < n
    && QueueInOrder(n, distance, queue, distance[current])
    && AllExpanded(g, n, distance, Members(queue) + {current})
    && ListedReached(n, distance, listed, k)
  }

  /** Taking the front off the queue makes its distance the new bound. */
  lemma QueuePop(n: nat, distance: seq<nat>, queue: seq<nat>, bound: nat)
    requires |distance| == n && queue != [] && QueueInOrder(n, distance, queue, bound)
    ensures queue[0] < n && distance[queue[0]] < n
    ensures QueueInOrder(n, distance, queue[1..], distance[queue[0]])
  {
    var rest := queue[1..];
    assert queue[0] in queue;
    forall v | v in rest ensures v < n && distance[queue[0]] <= distance[v] < n {
      var i :| 0 <= i < |rest| && rest[i] == v;
      assert queue[i + 1] == v && queue[i + 1] in queue;
    }
    forall i, j | 0 <= i < j < |rest| && rest[i] < n && rest[j] < n ensures distance[rest[i]] <= distance[rest[j]] {
      assert rest[i] == queue[i + 1] && rest[j] == queue[j + 1];
    }
  }

  lemma StartExpanding(g: Arcs, n: nat, start: nat, distance: seq<nat>, queue: seq<nat>, bound: nat, listed: seq<nat>)
    requires queue != [] && Searching(g, n, start, distance, queue, bound)
    ensures queue[0] < n && Expanding(g, n, start, distance, queue[1..], queue[0], listed, 0)
  {
    assert |distance| == n;
    QueuePop(n, distance, queue, bound);
    MembersPop(queue);
    hide Sound, QueueInOrder, Expanded, AllExpanded, Members;
  }

  lemma MembersPop(queue: seq<nat>)
    requires queue != []
    ensures Members(queue) == Members(queue[1..]) + {queue[0]}
  {
    assert queue == [queue[0]] + queue[1..];
  }

  lemma MembersPush(queue: seq<nat>, w: nat)
    ensures Members(queue + [w]) == Members(queue) + {w}
  {
  }

  /** A vertex one step past the expanded one goes to the back of the queue. */
  lemma QueuePush(n: nat, distance: seq<nat>, queue: seq<nat>, bound: nat, w: nat)
    requires |distance| == n && w < n && bound + 1 < n && distance[w] == n
    requires QueueInOrder(n, distance, queue, bound)
    ensures QueueInOrder(n, distance[w := bound + 1], queue + [w], bound)
  {
    var after, longer := distance[w := bound + 1], queue + [w];
    assert w !in queue;
    forall i, j | 0 <= i < j < |longer| && longer[i] < n && longer[j] < n ensures after[longer[i]] <= after[longer[j]] {
      assert longer[i] == queue[i] && queue[i] in queue;
      if j < |queue| { assert queue[j] in queue; }
    }
    forall v | v in longer ensures v < n && bound <= after[v] < n {
      if v != w { assert v in queue; }
    }
  }

  lemma ExpandNext(g: Arcs, n: nat, start: nat, distance: seq<nat>, queue: seq<nat>, current: nat,
      listed: seq<nat>, k: nat)
    requires k < |listed| && Expanding(g, n, start, distance, queue, current, listed, k)
    requires listed[k] < n ==> (current, listed[k]) in g
    ensures var w := listed[k];
            if w < n && distance[w] == n then
              && distance[current] + 1 < n
              && Expanding(g, n, start, distance[w := distance[current] + 1], queue + [w], current, listed, k + 1)
            else Expanding(g, n, start, distance, queue, current, listed, k + 1)
  {
    var w := listed[k];
    assert |distance| == n && (w < n ==> distance[w] <= n);
    if w < n && distance[w] == n {
      ExpandReached(g, n, start, distance, queue, current, listed, k);
    } else {
      hide Sound, QueueInOrder, Expanded, AllExpanded, Members, ListedReached;
      ListedNext(n, distance, listed, k, n);
    }
  }

  /** The next neighbour is unreached: it gets its distance and goes to the back of the queue. */
  lemma ExpandReached(g: Arcs, n: nat, start: nat, distance: seq<nat>, queue: seq<nat>, current: nat,
      listed: seq<nat>, k: nat)
    requires k < |listed| && Expanding(g, n, start, distance, queue, current, listed, k)
    requires var w := listed[k]; w < n && distance[w] == n && (current, w) in g
    ensures distance[current] + 1 < n
    ensures var w := listed[k];
            Expanding(g, n, start, distance[w := distance[current] + 1], queue + [w], current, listed, k + 1)
  {
    var w, d := listed[k], distance[current] + 1;
    var after, waiting := distance[w := d], Members(queue) + {current};
    assert after[current] == distance[current];
    hide Sound, QueueInOrder, Expanded, AllExpanded, Members, ListedReached;
    ReachOne(g, n, start, distance, current, w);
    ListedNext(n, distance, listed, k, d);
    ExpandedStays(g, n, distance, waiting, w, d);
    QueuePush(n, distance, queue, distance[current], w);
    MembersPush(queue, w);
    assert Members(queue + [w]) + {current} == waiting + {w};
  }

  lemma ListedNext(n: nat, distance: seq<nat>, listed: seq<nat>, k: nat, d: nat)
    requires |distance| == n && k < |listed| && ListedReached(n, distance, listed, k)
    requires listed[k] < n ==> distance[listed[k]] <= n
    ensures var w := listed[k];
            if w < n && distance[w] == n then d < n ==> ListedReached(n, distance[w := d], listed, k + 1)
            else ListedReached(n, distance, listed, k + 1)
  {
  }

  lemma ExpandedStays(g: Arcs, n: nat, distance: seq<nat>, waiting: set<nat>, w: nat, d: nat)
    requires |distance| == n && w < n && d < n && distance[w] == n && AllExpanded(g, n, distance, waiting)
    ensures AllExpanded(g, n, distance[w := d], waiting + {w})
  {
    var after := distance[w := d];
    forall v: nat | v < n && after[v] < n && v !in waiting + {w} ensures Expanded(g, n, after, v) {
      assert Expanded(g, n, distance, v);
    }
  }

  lemma FinishExpanding(g: Arcs, n: nat, start: nat, distance: seq<nat>, queue: seq<nat>, current: nat,
      listed: seq<nat>)
    requires Expanding(g, n, start, distance, queue, current, listed, |listed|)
    requires forall w: nat :: w < n && (current, w) in g ==> w in listed
    ensures Searching(g, n, start, distance, queue, distance[current])
  {
    assert forall w: nat :: w < n && (current, w) in g ==> distance[w] < n;
    assert Expanded(g, n, distance, current);
    hide Sound, Expanded, Members;
  }

  // ---------- exactness ----------

  /** Every walk from the start is at least as long as the recorded distance. */
  lemma {:induction false} WalksAreLonger(g: Arcs, n: nat, start: nat, distance: seq<nat>, p: seq<nat>)
    requires Sound(g, n, start, distance) && IsWalk(g, p) && p[0] == start
    requires forall v: nat :: v < n && distance[v] < n ==> Expanded(g, n, distance, v)
    requires forall a, b :: (a, b) in g ==> a < n && b < n
    ensures p[|p| - 1] < n && distance[p[|p| - 1]] < n && distance[p[|p| - 1]] <= |p| - 1
  {
    if |p| > 1 {
      var q := p[..|p| - 1];
      WalksAreLonger(g, n, start, distance, q);
      assert (p[|p| - 2], p[|p| - 1]) in g;
      assert Expanded(g, n, distance, q[|q| - 1]);
    }
  }

  /** When the queue is empty the recorded distances are exact, and unreached means unreachable. */
  lemma DistancesExact(g: Arcs, n: nat, start: nat, distance: seq<nat>, bound: nat, v: nat)
    requires Searching(g, n, start, distance, [], bound) && v < n && Members([]) == {}
    requires forall a, b :: (a, b) in g ==> a < n && b < n
    ensures distance[v] < n ==> IsDistance(g, start, v, distance[v])
    ensures forall d: nat :: WalkOfLength(g, start, v, d) ==> distance[v] < n && distance[v] <= d
  {
    forall d: nat | WalkOfLength(g, start, v, d) ensures distance[v] < n && distance[v] <= d {
      var p :| WalkBetween(g, p, start, v) && |p| == d + 1;
      WalksAreLonger(g, n, start, distance, p);
    }
  }

  // ---------- the algorithm ----------

  /** widest is at least every recorded distance, and is one of them or the value before. */
  ghost predicate Widest(n: nat, distance: seq<nat>, before: nat, widest: nat) {
    && (forall v: nat :: v < |distance| && distance[v] < n ==> distance[v] <= widest)
    && before <= widest
    && (widest == before || (widest < n && HasLevel(distance, widest)))
  }

  lemma WidestNext(n: nat, distance: seq<nat>, before: nat, widest: nat, w: nat, d: nat)
    requires Widest(n, distance, before, widest) && w < |distance| && distance[w] == n && d < n
    ensures Widest(n, distance[w := d], before, if d > widest then d else widest)
  {
    var after := distance[w := d];
    assert after[w] == d;
    if widest != before && d <= widest {
      var v :| 0 <= v < |distance| && distance[v] == widest;
      assert after[v] == widest;
    }
  }

  ghost function Unreached(n: nat, distance: seq<nat>): nat {
    if distance == [] then 0
    else Unreached(n, distance[..|distance| - 1]) + if distance[|distance| - 1] == n then 1 else 0
  }

  lemma {:induction false} UnreachedDrops(n: nat, distance: seq<nat>, w: nat, d: nat)
    requires w < |distance| && distance[w] == n && d != n
    ensures Unreached(n, distance[w := d]) == Unreached(n, distance) - 1
  {
    var last := |distance| - 1;
    var after := distance[w := d];
    if w < last {
      assert after[..last] == distance[..last][w := d];
      UnreachedDrops(n, distance[..last], w, d);
    } else {
      assert after[..last] == distance[..last];
    }
  }

  /** Visit the listed neighbours of current. */
  method Expand(ghost g: Arcs, n: nat, ghost start: nat, distance: array<nat>, rest: seq<nat>, current: nat,
      listed: seq<nat>, diameter: nat, ghost before: nat)
    returns (queue: seq<nat>, widest: nat)
    requires distance.Length == n && Expanding(g, n, start, distance[..], rest, current, listed, 0)
    requires forall w: nat :: w < n ==> ((current, w) in g <==> w in listed)
    requires Widest(n, distance[..], before, diameter)
    modifies distance
    ensures exists bound :: Searching(g, n, start, distance[..], queue, bound)
    ensures Widest(n, distance[..], before, widest)
    ensures Unreached(n, distance[..]) + |queue| == old(Unreached(n, distance[..])) + |rest|
  {
    hide Expanding, Widest, Searching;
    CurrentInRange(g, n, start, distance[..], rest, current, listed, 0);
    queue, widest := rest, diameter;
    for k := 0 to |listed|
      invariant Expanding(g, n, start, distance[..], queue, current, listed, k)
      invariant Widest(n, distance[..], before, widest)
      invariant Unreached(n, distance[..]) + |queue| == old(Unreached(n, distance[..])) + |rest|
    {
      var w := listed[k];
      ghost var was: seq<nat> := distance[..];
      assert w in listed;
      ExpandNext(g, n, start, was, queue, current, listed, k);
      CurrentInRange(g, n, start, was, queue, current, listed, k);
      if w < n && distance[w] == n {
        var d: nat := distance[current] + 1;
        WidestNext(n, was, before, widest, w, d);
        UnreachedDrops(n, was, w, d);
        distance[w] := d;
        widest := if d > widest then d else widest;
        queue := queue + [w];
        assert distance[..] == was[w := d];
      }
    }
    FinishExpanding(g, n, start, distance[..], queue, current, listed);
  }

  lemma CurrentInRange(g: Arcs, n: nat, start: nat, distance: seq<nat>, queue: seq<nat>, current: nat,
      listed: seq<nat>, k: nat)
    requires k <= |listed| && Expanding(g, n, start, distance, queue, current, listed, k)
    ensures |distance| == n && current < n && distance[current] < n
  {
  }

  method SearchFrom(adjacency: seq<seq<nat>>, start: nat, diameter: nat) returns (widest: nat)
    requires start < |adjacency|
    ensures var g := ListArcs(adjacency);
            && diameter <= widest && (diameter < |adjacency| ==> widest < |adjacency|)
            && (forall v: nat, d: nat :: v < |adjacency| && IsDistance(g, start, v, d) ==> d <= widest)
            && (widest == diameter || exists v: nat :: v < |adjacency| && IsDistance(g, start, v, widest))
  {
    var n := |adjacency|;
    ghost var g := ListArcs(adjacency);
    var distance := new nat[n](_ => n);
    distance[start] := 0;
    var queue := [start];
    widest := diameter;
    StartSearch(g, n, start, distance[..], diameter);
    ghost var bound: nat := 0;
    hide Searching, Widest, IsDistance;
    while |queue| > 0
      invariant Searching(g, n, start, distance[..], queue, bound)
      invariant Widest(n, distance[..], diameter, widest)
      decreases Unreached(n, distance[..]) + |queue|
    {
      var current := queue[0];
      QueuedInRange(g, n, start, distance[..], queue, bound);
      var listed := adjacency[current];
      StartExpanding(g, n, start, distance[..], queue, bound, listed);
      forall w: nat | w < n ensures (current, w) in g <==> w in listed {
        ListArcsMember(adjacency, current, w);
      }
      queue, widest := Expand(g, n, start, distance, queue[1..], current, listed, widest, diameter);
      bound :| Searching(g, n, start, distance[..], queue, bound);
    }
    assert queue == [];
    Conclude(g, n, start, distance[..], bound, diameter, widest);
  }

  lemma QueuedInRange(g: Arcs, n: nat, start: nat, distance: seq<nat>, queue: seq<nat>, bound: nat)
    requires Searching(g, n, start, distance, queue, bound) && queue != []
    ensures queue[0] < n
  {
    assert queue[0] in queue;
  }

  lemma StartSearch(g: Arcs, n: nat, start: nat, distance: seq<nat>, before: nat)
    requires start < n == |distance| && forall v :: 0 <= v < n ==> distance[v] == if v == start then 0 else n
    ensures Searching(g, n, start, distance, [start], 0)
    ensures Widest(n, distance, before, before)
  {
    assert WalkBetween(g, [start], start, start);
    assert WalkOfLength(g, start, start, 0);
    assert Members([start]) == {start};
  }

  lemma Conclude(g: Arcs, n: nat, start: nat, distance: seq<nat>, bound: nat, before: nat, widest: nat)
    requires Searching(g, n, start, distance, [], bound) && Widest(n, distance, before, widest)
    requires g == set e | e in g && e.0 < n && e.1 < n
    ensures forall v: nat, d: nat :: v < n && IsDistance(g, start, v, d) ==> d <= widest
    ensures widest == before || (widest < n && exists v: nat :: v < n && IsDistance(g, start, v, widest))
  {
    forall v: nat, d: nat | v < n && IsDistance(g, start, v, d) ensures d <= widest {
      DistancesExact(g, n, start, distance, bound, v);
    }
    if widest != before {
      var v: nat :| v < n && distance[v] == widest;
      DistancesExact(g, n, start, distance, bound, v);
    }
  }

  /** The largest shortest-walk length over all ordered pairs of nodes that are joined at all. */
  ghost predicate IsDiameter(g: Arcs, n: nat, diameter: nat) {
    && (forall u: nat, v: nat, d: nat :: u < n && v < n && IsDistance(g, u, v, d) ==> d <= diameter)
    && (diameter == 0 || exists u: nat, v: nat :: u < n && v < n && IsDistance(g, u, v, diameter))
  }

  method GraphDiameter(graph: MapperGraph) returns (diameter: nat)
    ensures IsDiameter(GraphArcs(graph), graph.nodes, diameter)
    ensures graph.nodes > 0 ==> diameter < graph.nodes
  {
    var n := graph.nodes;
    if n <= 1 {
      TinyGraph(graph);
      return 0;
    }
    var adjacency := graph.adjacency;
    if |adjacency| != n {
      adjacency := BuildAdjacency(n, graph.edges);
    }
    ghost var g := ListArcs(adjacency);
    hide IsDistance, ListArcs;
    diameter := 0;
    for start := 0 to n
      invariant forall u: nat, v: nat, d: nat :: u < start && v < n && IsDistance(g, u, v, d) ==> d <= diameter
      invariant diameter < n
      invariant diameter == 0 || exists u: nat, v: nat :: u < n && v < n && IsDistance(g, u, v, diameter)
    {
      diameter := SearchFrom(adjacency, start, diameter);
    }
  }

  lemma TinyGraph(graph: MapperGraph)
    requires graph.nodes <= 1
    ensures IsDiameter(GraphArcs(graph), graph.nodes, 0)
  {
    var g := GraphArcs(graph);
    forall u: nat, v: nat, d: nat | u < graph.nodes && v < graph.nodes && IsDistance(g, u, v, d) ensures d <= 0 {
      assert u == v;
      assert WalkBetween(g, [u], u, v);
      assert WalkOfLength(g, u, v, 0);
    }
  }
}
