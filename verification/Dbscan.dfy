/** DBSCAN as a worklist algorithm, proved against density reachability. */
module Dbscan {
  import opened Graph
  import opened Sorting

  /** n points, their distances, the radius and the configured sample count. */
  datatype Setting = Setting(n: nat, dist: (nat, nat) -> real, eps: real, minSamples: int) {
    predicate Near(i: nat, j: nat) {
      i != j && dist(i, j) <= eps
    }

    function Required(): nat {
      if minSamples > 1 then minSamples else 1
    }

    /** The neighbours of i among the first k points, in ascending order, i excluded. */
    function NeighboursTo(i: nat, k: nat): (s: seq<nat>)
      ensures forall q: nat :: q in s <==> q < k && Near(i, q)
    {
      if k == 0 then []
      else NeighboursTo(i, k - 1) + if Near(i, k - 1) then [k - 1] else []
    }

    predicate Core(i: nat) {
      |NeighboursTo(i, n)| >= Required()
    }

    ghost predicate Symmetric() {
      forall i, j :: dist(i, j) == dist(j, i)
    }

    /** Steps between core points within eps. */
    ghost function CoreArcs(): (g: Arcs) {
      set i: nat, j: nat | i < n && j < n && Core(i) && Core(j) && Near(i, j) :: (i, j)
    }
  }

  method RegionQuery(p: Setting, i: nat) returns (neighbours: seq<nat>)
    ensures neighbours == p.NeighboursTo(i, p.n)
  {
    neighbours := [];
    for j := 0 to p.n
      invariant neighbours == p.NeighboursTo(i, j)
    {
      if i == j { continue; }
      if p.dist(i, j) <= p.eps {
        neighbours := neighbours + [j];
      }
    }
  }

  /** The clustering the algorithm promises, with ids 0..c-1: ids ascend with the least core point of
      their cluster, and a border point has the least label among the core points near it. */
  ghost predicate IsClustering(p: Setting, labels: seq<int>, c: nat) {
    && |labels| == p.n
    && (forall i: nat :: i < p.n && p.Core(i) ==> 0 <= labels[i] < c)
    && (forall i: nat, j: nat :: i < p.n && j < p.n && p.Core(i) && p.Core(j) ==>
          (labels[i] == labels[j] <==> Joined(p.CoreArcs(), i, j)))
    && (forall i: nat :: i < p.n && !p.Core(i) ==>
          if forall k: nat :: k < p.n && p.Core(k) ==> !p.Near(i, k) then labels[i] == -1
          else exists k: nat :: k < p.n && p.Core(k) && p.Near(i, k) && labels[i] == labels[k])
    && (forall l: nat :: l < c ==> Used(p, labels, l))
    && Ordered(p, labels) && BorderLeast(p, labels)
  }

  /** Before a core point of one cluster comes a core point of every earlier cluster. */
  ghost predicate Ordered(p: Setting, labels: seq<int>)
    requires |labels| == p.n
  {
    forall j: nat, l: nat :: j < p.n && p.Core(j) && l < labels[j] ==> Preceded(p, labels, l, j)
  }

  /** Some core point before j has label l. */
  ghost predicate Preceded(p: Setting, labels: seq<int>, l: int, j: nat) {
    exists k: nat :: k < j && HasLabel(p, labels, k, l)
  }

  /** A labelled border point has no label larger than that of a labelled core point near it. */
  ghost predicate BorderLeast(p: Setting, labels: seq<int>)
    requires |labels| == p.n
  {
    forall q: nat, k: nat :: q < p.n && k < p.n && !p.Core(q) && p.Core(k) && p.Near(q, k) && labels[k] >= 0 ==>
      labels[q] <= labels[k]
  }

  ghost predicate HasLabel(p: Setting, labels: seq<int>, i: nat, l: int) {
    i < p.n == |labels| && p.Core(i) && labels[i] == l
  }

  ghost predicate Used(p: Setting, labels: seq<int>, l: int) {
    exists i: nat :: HasLabel(p, labels, i, l)
  }

  // ---------- the state between steps ----------

  /** All neighbours of a core point of cluster l are labelled, and core ones belong to l. */
  ghost predicate Settled(p: Setting, labels: seq<int>, i: nat, l: int)
    requires |labels| == p.n
  {
    forall q: nat :: q < p.n && p.Near(i, q) ==> labels[q] >= 0 && (p.Core(q) ==> labels[q] == l)
  }

  /** A border point carries the label of a core point near it. */
  ghost predicate Supported(p: Setting, labels: seq<int>, q: nat)
    requires |labels| == p.n && q < p.n
  {
    exists k: nat :: k < p.n && p.Core(k) && p.Near(q, k) && labels[k] == labels[q]
  }

  /** Labels and visited marks agree: labelled points are visited, visited core points labelled. */
  ghost predicate Marked(p: Setting, labels: seq<int>, visited: seq<bool>, ids: nat) {
    && |labels| == |visited| == p.n
    && (forall i :: 0 <= i < p.n ==> -1 <= labels[i] < ids)
    && (forall i :: 0 <= i < p.n && labels[i] >= 0 ==> visited[i])
    && (forall i: nat :: i < p.n && p.Core(i) && visited[i] ==> labels[i] >= 0)
  }

  /** Labelled core points outside the queue are settled. */
  ghost predicate AllSettled(p: Setting, labels: seq<int>, seeds: seq<nat>)
    requires |labels| == p.n
  {
    forall i: nat :: i < p.n && p.Core(i) && labels[i] >= 0 && i !in seeds ==> Settled(p, labels, i, labels[i])
  }

  /** Core points of each of the first c clusters are joined to each other. */
  ghost predicate ClustersJoined(p: Setting, labels: seq<int>, c: nat)
    requires |labels| == p.n
  {
    forall i: nat, j: nat :: i < p.n && j < p.n && p.Core(i) && p.Core(j) && 0 <= labels[i] == labels[j] < c ==>
      Joined(p.CoreArcs(), i, j)
  }

  ghost predicate AllSupported(p: Setting, labels: seq<int>)
    requires |labels| == p.n
  {
    forall i: nat :: i < p.n && !p.Core(i) && labels[i] >= 0 ==> Supported(p, labels, i)
  }

  ghost predicate AllUsed(p: Setting, labels: seq<int>, c: nat) {
    forall l: nat :: l < c ==> Used(p, labels, l)
  }

  /** Between clusters: c clusters are complete. */
  ghost predicate Outer(p: Setting, labels: seq<int>, visited: seq<bool>, c: nat) {
    && Marked(p, labels, visited, c)
    && AllSettled(p, labels, []) && ClustersJoined(p, labels, c)
    && AllSupported(p, labels) && AllUsed(p, labels, c)
  }

  /** The growing cluster c: its core points are joined to start, and the queue belongs to it. */
  ghost predicate Growing(p: Setting, labels: seq<int>, seeds: seq<nat>, c: nat, start: nat)
    requires |labels| == p.n
  {
    && HasLabel(p, labels, start, c)
    && (forall i :: i in seeds ==> i < p.n && labels[i] == c)
    && (forall i: nat :: i < p.n && p.Core(i) && labels[i] == c ==> Joined(p.CoreArcs(), start, i))
  }

  /** While cluster c grows from start: the points in seeds are still to be expanded. */
  ghost predicate Inner(p: Setting, labels: seq<int>, visited: seq<bool>, seeds: seq<nat>, c: nat, start: nat) {
    && Marked(p, labels, visited, c + 1)
    && Growing(p, labels, seeds, c, start)
    && AllSettled(p, labels, seeds) && ClustersJoined(p, labels, c)
    && AllSupported(p, labels) && AllUsed(p, labels, c)
  }

  /** Each of the first c clusters has a core point before all unvisited points. */
  ghost predicate Founded(p: Setting, labels: seq<int>, visited: seq<bool>, c: nat)
    requires |labels| == |visited| == p.n
  {
    forall l: nat :: l < c ==> HasFounder(p, labels, visited, l)
  }

  ghost predicate HasFounder(p: Setting, labels: seq<int>, visited: seq<bool>, l: int) {
    exists k: nat :: HasLabel(p, labels, k, l) && Earliest(visited, k)
  }

  ghost predicate Earliest(visited: seq<bool>, k: nat) {
    forall u :: 0 <= u < |visited| && !visited[u] ==> k < u
  }

  /** What determines the ids and the border labels, while c clusters are complete. */
  ghost predicate Ranked(p: Setting, labels: seq<int>, visited: seq<bool>, c: nat) {
    |labels| == |visited| == p.n && Ordered(p, labels) && BorderLeast(p, labels) && Founded(p, labels, visited, c)
  }

  // ---------- the neighbour loop ----------

  ghost function Unvisited(visited: seq<bool>): nat {
    if visited == [] then 0
    else Unvisited(visited[..|visited| - 1]) + if visited[|visited| - 1] then 0 else 1
  }

  lemma {:induction false} VisitOne(visited: seq<bool>, i: nat)
    requires i < |visited| && !visited[i]
    ensures Unvisited(visited[i := true]) == Unvisited(visited) - 1
  {
    var last := |visited| - 1;
    var after := visited[i := true];
    if i < last {
      assert after[..last] == visited[..last][i := true];
      VisitOne(visited[..last], i);
    } else {
      assert after[..last] == visited[..last];
    }
  }

  lemma {:induction false} NeighboursDistinct(p: Setting, i: nat, k: nat)
    ensures Distinct(p.NeighboursTo(i, k))
  {
    if k > 0 {
      NeighboursDistinct(p, i, k - 1);
      var s := p.NeighboursTo(i, k - 1);
      assert forall x :: 0 <= x < |s| ==> s[x] in s;
    }
  }

  /** What labels, visited and queue become when the neighbours of a core point are absorbed. */
  ghost predicate Absorbed(neighbours: seq<nat>, c: int, labels: seq<int>, visited: seq<bool>, seeds: seq<nat>,
      labels': seq<int>, visited': seq<bool>, seeds': seq<nat>)
    requires |labels| == |visited|
  {
    && |labels'| == |visited'| == |labels|
    && (forall q :: 0 <= q < |labels| ==> labels'[q] == if q in neighbours && labels[q] == -1 then c else labels[q])
    && (forall q :: 0 <= q < |labels| ==> visited'[q] == (visited[q] || q in neighbours))
    && (forall q :: q in seeds' <==> q in seeds || (q in neighbours && q < |visited| && !visited[q]))
    && Unvisited(visited') + |seeds'| == Unvisited(visited) + |seeds|
  }

  lemma AbsorbOne(neighbours: seq<nat>, k: nat, c: int, labels: seq<int>, visited: seq<bool>, seeds: seq<nat>,
      labels': seq<int>, visited': seq<bool>, seeds': seq<nat>)
    requires |labels| == |visited| && k < |neighbours| && neighbours[k] < |labels| && Distinct(neighbours)
    requires Absorbed(neighbours[..k], c, labels, visited, seeds, labels', visited', seeds')
    ensures var q := neighbours[k];
            Absorbed(neighbours[..k + 1], c, labels, visited, seeds,
              if labels'[q] == -1 then labels'[q := c] else labels',
              visited'[q := true],
              if visited'[q] then seeds' else seeds' + [q])
  {
    var q := neighbours[k];
    assert neighbours[..k + 1] == neighbours[..k] + [q];
    assert q !in neighbours[..k];
    if visited'[q] {
      assert visited'[q := true] == visited';
    } else {
      VisitOne(visited', q);
    }
  }

  method Absorb(neighbours: seq<nat>, c: int, labels: array<int>, visited: array<bool>, seeds: seq<nat>)
    returns (seeds': seq<nat>)
    requires labels.Length == visited.Length && c >= 0
    requires forall q :: q in neighbours ==> q < labels.Length
    requires Distinct(neighbours)
    modifies labels, visited
    ensures Absorbed(neighbours, c, old(labels[..]), old(visited[..]), seeds, labels[..], visited[..], seeds')
  {
    hide Absorbed, Distinct;
    seeds' := seeds;
    ghost var before, seen := labels[..], visited[..];
    NothingAbsorbed(neighbours, c, before, seen, seeds);
    for k := 0 to |neighbours|
      invariant Absorbed(neighbours[..k], c, before, seen, seeds, labels[..], visited[..], seeds')
    {
      var q := neighbours[k];
      assert q in neighbours;
      ghost var l, v := labels[..], visited[..];
      AbsorbOne(neighbours, k, c, before, seen, seeds, l, v, seeds');
      if labels[q] == -1 {
        labels[q] := c;
      }
      assert labels[..] == if l[q] == -1 then l[q := c] else l;
      if !visited[q] {
        visited[q] := true;
        seeds' := seeds' + [q];
      }
      assert visited[..] == v[q := true];
    }
    assert neighbours[..|neighbours|] == neighbours;
  }

  lemma NothingAbsorbed(neighbours: seq<nat>, c: int, labels: seq<int>, visited: seq<bool>, seeds: seq<nat>)
    requires |labels| == |visited|
    ensures Absorbed(neighbours[..0], c, labels, visited, seeds, labels, visited, seeds)
  {
  }

  // ---------- one expansion step ----------

  /** labels' keeps every label of labels; new ones are c. */
  ghost predicate Grows(labels: seq<int>, labels': seq<int>, c: int) {
    |labels'| == |labels| && forall q :: 0 <= q < |labels| ==>
      labels'[q] == labels[q] || (labels[q] == -1 && labels'[q] == c)
  }

  lemma UsedGrows(p: Setting, labels: seq<int>, labels': seq<int>, c: nat)
    requires |labels| == p.n && Grows(labels, labels', c) && AllUsed(p, labels, c)
    ensures AllUsed(p, labels', c)
  {
    forall l: nat | l < c ensures Used(p, labels', l) {
      assert Used(p, labels, l);
      var i: nat :| HasLabel(p, labels, i, l);
      assert HasLabel(p, labels', i, l);
    }
  }

  lemma SupportedGrows(p: Setting, labels: seq<int>, labels': seq<int>, c: nat, cur: nat)
    requires |labels| == p.n && Grows(labels, labels', c) && AllSupported(p, labels)
    requires cur < p.n && p.Core(cur) && labels'[cur] == c
    requires forall q: nat :: q < p.n && labels[q] == -1 && labels'[q] == c ==> q == cur || p.Near(q, cur)
    ensures AllSupported(p, labels')
  {
    forall i: nat | i < p.n && !p.Core(i) && labels'[i] >= 0 ensures Supported(p, labels', i) {
      if labels[i] != -1 {
        assert Supported(p, labels, i);
        var k: nat :| k < p.n && p.Core(k) && p.Near(i, k) && labels[k] == labels[i];
        assert labels'[k] == labels'[i];
      }
    }
  }

  /** A core point near a member of the growing cluster is not in an older one. */
  lemma NotInOlder(p: Setting, labels: seq<int>, seeds: seq<nat>, c: nat, start: nat, cur: nat, q: nat)
    requires p.Symmetric() && |labels| == p.n && AllSettled(p, labels, seeds) && Growing(p, labels, seeds, c, start)
    requires cur < p.n && q < p.n && p.Core(cur) && p.Core(q) && p.Near(cur, q)
    requires labels[cur] == c && labels[q] >= 0
    ensures labels[q] == c
  {
    if q !in seeds {
      assert Settled(p, labels, q, labels[q]);
      assert p.Near(q, cur);
    }
  }

  /** The neighbours of the expanded point all end up labelled, the core ones in its cluster. */
  lemma CurrentSettled(p: Setting, labels: seq<int>, seeds: seq<nat>, c: nat, start: nat, cur: nat, labels': seq<int>)
    requires p.Symmetric() && |labels| == p.n && (forall i :: 0 <= i < p.n ==> -1 <= labels[i])
    requires AllSettled(p, labels, seeds) && Growing(p, labels, seeds, c, start)
    requires cur < p.n && p.Core(cur) && labels[cur] == c && |labels'| == p.n
    requires forall q: nat :: q < p.n ==> labels'[q] == if p.Near(cur, q) && labels[q] == -1 then c else labels[q]
    ensures Settled(p, labels', cur, c)
    ensures forall q: nat :: q < p.n && p.Core(q) && labels'[q] == c ==> Joined(p.CoreArcs(), start, q)
  {
    var g := p.CoreArcs();
    forall q: nat | q < p.n && p.Near(cur, q) ensures labels'[q] >= 0 && (p.Core(q) ==> labels'[q] == c) {
      if p.Core(q) && labels[q] >= 0 { NotInOlder(p, labels, seeds, c, start, cur, q); }
    }
    forall q: nat | q < p.n && p.Core(q) && labels'[q] == c ensures Joined(g, start, q) {
      if labels[q] != c {
        assert Joined(g, start, cur) && (cur, q) in g;
        JoinedStep(g, start, cur, q);
      }
    }
  }

  lemma SettledGrows(p: Setting, labels: seq<int>, seeds: seq<nat>, labels': seq<int>, seeds': seq<nat>, c: nat,
      cur: nat)
    requires |labels| == p.n && Grows(labels, labels', c) && AllSettled(p, labels, seeds)
    requires cur < p.n && labels'[cur] == c && Settled(p, labels', cur, c)
    requires forall i: nat :: i < p.n && p.Core(i) && labels'[i] >= 0 && i !in seeds' ==>
              i == cur || (i !in seeds && labels[i] >= 0)
    ensures AllSettled(p, labels', seeds')
  {
    forall i: nat | i < p.n && p.Core(i) && labels'[i] >= 0 && i !in seeds' ensures Settled(p, labels', i, labels'[i]) {
      if i != cur {
        assert Settled(p, labels, i, labels[i]);
      }
    }
  }

  lemma MarkedAbsorbed(p: Setting, cur: nat, c: nat, labels: seq<int>, visited: seq<bool>, seeds: seq<nat>,
      labels': seq<int>, visited': seq<bool>, seeds': seq<nat>)
    requires Marked(p, labels, visited, c + 1)
    requires Absorbed(p.NeighboursTo(cur, p.n), c, labels, visited, seeds, labels', visited', seeds')
    ensures Marked(p, labels', visited', c + 1) && Grows(labels, labels', c)
    ensures forall q: nat :: q < p.n ==> labels'[q] == if p.Near(cur, q) && labels[q] == -1 then c else labels[q]
    ensures forall q: nat :: q in seeds' <==> q in seeds || (q < p.n && p.Near(cur, q) && !visited[q])
  {
  }

  /** Expanding a core seed keeps the cluster consistent. */
  lemma ExpandCore(p: Setting, labels: seq<int>, visited: seq<bool>, cur: nat, rest: seq<nat>, c: nat, start: nat,
      labels': seq<int>, visited': seq<bool>, seeds': seq<nat>)
    requires p.Symmetric() && Inner(p, labels, visited, [cur] + rest, c, start) && p.Core(cur)
    requires Absorbed(p.NeighboursTo(cur, p.n), c, labels, visited, rest, labels', visited', seeds')
    ensures Inner(p, labels', visited', seeds', c, start)
  {
    hide Absorbed, Settled, AllSettled, ClustersJoined, AllSupported, AllUsed, Joined, Setting.Core;
    hide Setting.Near, Setting.CoreArcs;
    assert cur in [cur] + rest;
    MarkedAbsorbed(p, cur, c, labels, visited, rest, labels', visited', seeds');
    UsedGrows(p, labels, labels', c);
    NearSymmetric(p, cur);
    SupportedGrows(p, labels, labels', c, cur);
    CurrentSettled(p, labels, [cur] + rest, c, start, cur, labels');
    assert forall i :: i in rest ==> i in [cur] + rest;
    SettledGrows(p, labels, [cur] + rest, labels', seeds', c, cur);
    JoinedGrows(p, labels, labels', c);
  }

  lemma FoundedGrows(p: Setting, labels: seq<int>, visited: seq<bool>, labels': seq<int>, visited': seq<bool>, c: nat)
    requires |labels| == |labels'| == |visited| == |visited'| == p.n && Grows(labels, labels', c)
    requires forall u :: 0 <= u < p.n && visited[u] ==> visited'[u]
    requires Founded(p, labels, visited, c)
    ensures Founded(p, labels', visited', c)
  {
    forall l: nat | l < c ensures HasFounder(p, labels', visited', l) {
      assert HasFounder(p, labels, visited, l);
      var k: nat :| HasLabel(p, labels, k, l) && Earliest(visited, k);
      assert HasLabel(p, labels', k, l) && Earliest(visited', k);
    }
  }

  /** A core point labelled now was unvisited, so it comes after the founders of older clusters. */
  lemma OrderedGrows(p: Setting, labels: seq<int>, visited: seq<bool>, labels': seq<int>, c: nat)
    requires |labels| == |labels'| == |visited| == p.n && Grows(labels, labels', c)
    requires Marked(p, labels, visited, c + 1) && Ordered(p, labels) && Founded(p, labels, visited, c)
    ensures Ordered(p, labels')
  {
    forall j: nat, l: nat | j < p.n && p.Core(j) && l < labels'[j] ensures Preceded(p, labels', l, j) {
      if labels[j] == labels'[j] {
        assert Preceded(p, labels, l, j);
        var k: nat :| k < j && HasLabel(p, labels, k, l);
        assert HasLabel(p, labels', k, l);
      } else {
        assert HasFounder(p, labels, visited, l);
        var k: nat :| HasLabel(p, labels, k, l) && Earliest(visited, k);
        assert !visited[j] && k < j && HasLabel(p, labels', k, l);
      }
    }
  }

  /** A border point labelled now is near no core point of an older cluster. */
  lemma BorderGrows(p: Setting, labels: seq<int>, seeds: seq<nat>, labels': seq<int>, c: nat)
    requires p.Symmetric() && |labels| == |labels'| == p.n && Grows(labels, labels', c)
    requires AllSettled(p, labels, seeds) && BorderLeast(p, labels)
    requires forall i :: i in seeds ==> i < p.n && labels[i] == c
    requires forall i :: 0 <= i < p.n ==> -1 <= labels[i] < c + 1
    ensures BorderLeast(p, labels')
  {
    forall q: nat, k: nat | q < p.n && k < p.n && p.Core(k) && p.Near(q, k) && 0 <= labels[k] < c
      ensures labels[q] >= 0
    {
      assert Settled(p, labels, k, labels[k]) && p.Near(k, q);
    }
  }

  lemma RankedGrows(p: Setting, labels: seq<int>, visited: seq<bool>, seeds: seq<nat>, labels': seq<int>,
      visited': seq<bool>, c: nat)
    requires p.Symmetric() && |labels'| == |visited'| == p.n && Grows(labels, labels', c)
    requires forall u :: 0 <= u < |visited| && visited[u] ==> u < p.n && visited'[u]
    requires Marked(p, labels, visited, c + 1) && AllSettled(p, labels, seeds) && Ranked(p, labels, visited, c)
    requires forall i :: i in seeds ==> i < p.n && labels[i] == c
    ensures Ranked(p, labels', visited', c)
  {
    hide Ordered, BorderLeast, Founded, AllSettled;
    FoundedGrows(p, labels, visited, labels', visited', c);
    OrderedGrows(p, labels, visited, labels', c);
    BorderGrows(p, labels, seeds, labels', c);
  }

  lemma RankedStart(p: Setting, labels: seq<int>, visited: seq<bool>, c: nat, start: nat)
    requires p.Symmetric() && Outer(p, labels, visited, c) && Ranked(p, labels, visited, c)
    requires start < p.n && p.Core(start) && !visited[start]
    ensures Ranked(p, labels[start := c], visited[start := true], c)
  {
    hide Ranked, AllSettled, ClustersJoined, AllSupported, AllUsed;
    RankedGrows(p, labels, visited, [], labels[start := c], visited[start := true], c);
  }

  lemma RankedCore(p: Setting, labels: seq<int>, visited: seq<bool>, cur: nat, rest: seq<nat>, c: nat, start: nat,
      labels': seq<int>, visited': seq<bool>, seeds': seq<nat>)
    requires p.Symmetric() && Inner(p, labels, visited, [cur] + rest, c, start) && Ranked(p, labels, visited, c)
    requires Absorbed(p.NeighboursTo(cur, p.n), c, labels, visited, rest, labels', visited', seeds')
    ensures Ranked(p, labels', visited', c)
  {
    hide Ranked, AllSettled, ClustersJoined, AllSupported, AllUsed, Setting.Near, Setting.Core, Setting.CoreArcs;
    MarkedAbsorbed(p, cur, c, labels, visited, rest, labels', visited', seeds');
    AbsorbedVisits(p.NeighboursTo(cur, p.n), c, labels, visited, rest, labels', visited', seeds');
    hide Absorbed, HasLabel;
    RankedGrows(p, labels, visited, [cur] + rest, labels', visited', c);
  }

  /** The finished cluster has its founder: the point it started from. */
  lemma RankedFinish(p: Setting, labels: seq<int>, visited: seq<bool>, c: nat, start: nat)
    requires Inner(p, labels, visited, [], c, start) && Ranked(p, labels, visited, c) && Earliest(visited, start)
    ensures Ranked(p, labels, visited, c + 1)
  {
    hide Ordered, BorderLeast, AllSettled, ClustersJoined, AllSupported, AllUsed, Marked, HasLabel, Earliest;
    assert HasFounder(p, labels, visited, c);
  }

  lemma RankedVisit(p: Setting, labels: seq<int>, visited: seq<bool>, c: nat, i: nat)
    requires Ranked(p, labels, visited, c) && i < p.n
    ensures Ranked(p, labels, visited[i := true], c)
  {
    hide Ordered, BorderLeast;
    FoundedGrows(p, labels, visited, labels, visited[i := true], c);
  }

  lemma NearSymmetric(p: Setting, cur: nat)
    requires p.Symmetric()
    ensures forall q: nat :: p.Near(cur, q) <==> p.Near(q, cur)
  {
  }

  lemma JoinedGrows(p: Setting, labels: seq<int>, labels': seq<int>, c: nat)
    requires |labels| == p.n && Grows(labels, labels', c) && ClustersJoined(p, labels, c)
    ensures ClustersJoined(p, labels', c)
  {
  }

  lemma ExpandBorder(p: Setting, labels: seq<int>, visited: seq<bool>, cur: nat, rest: seq<nat>, c: nat, start: nat)
    requires Inner(p, labels, visited, [cur] + rest, c, start) && !p.Core(cur)
    ensures Inner(p, labels, visited, rest, c, start)
  {
    hide Settled, ClustersJoined, AllSupported, AllUsed, Joined, Marked;
    assert forall i: nat :: i in [cur] + rest <==> i == cur || i in rest;
  }

  /** A new cluster starts at an unvisited core point. */
  lemma StartCluster(p: Setting, labels: seq<int>, visited: seq<bool>, c: nat, start: nat)
    requires Outer(p, labels, visited, c) && start < p.n && p.Core(start) && !visited[start]
    ensures Inner(p, labels[start := c], visited[start := true], [start], c, start)
  {
    var labels' := labels[start := c];
    assert labels[start] == -1;
    JoinedRefl(p.CoreArcs(), start);
    hide Joined, AllUsed, AllSupported, ClustersJoined;
    assert Grows(labels, labels', c);
    UsedGrows(p, labels, labels', c);
    SupportedGrows(p, labels, labels', c, start);
    JoinedGrows(p, labels, labels', c);
    assert forall i: nat :: i in [start] <==> i == start;
    forall i: nat | i < p.n && p.Core(i) && labels'[i] >= 0 && i !in [start]
      ensures Settled(p, labels', i, labels'[i])
    {
      assert Settled(p, labels, i, labels[i]);
    }
  }

  lemma FinishCluster(p: Setting, labels: seq<int>, visited: seq<bool>, c: nat, start: nat)
    requires p.Symmetric() && Inner(p, labels, visited, [], c, start)
    ensures Outer(p, labels, visited, c + 1)
  {
    var g := p.CoreArcs();
    forall i: nat, j: nat | i < p.n && j < p.n && p.Core(i) && p.Core(j) && 0 <= labels[i] == labels[j] < c + 1
      ensures Joined(g, i, j)
    {
      if labels[i] == c {
        JoinedSym(g, start, i);
        JoinedTrans(g, i, start, j);
      }
    }
    forall l: nat | l < c + 1 ensures Used(p, labels, l) {
      if l == c { assert HasLabel(p, labels, start, l); }
    }
  }

  /** When every point is visited the clustering is the promised one. */
  lemma AllVisited(p: Setting, labels: seq<int>, visited: seq<bool>, c: nat)
    requires p.Symmetric() && Outer(p, labels, visited, c) && Ranked(p, labels, visited, c)
    requires forall i :: 0 <= i < p.n ==> visited[i]
    ensures IsClustering(p, labels, c)
  {
    hide Ordered, BorderLeast, Founded;
    var g := p.CoreArcs();
    CoreLabelsAgree(p, labels, visited, c);
    forall i: nat, j: nat | i < p.n && j < p.n && p.Core(i) && p.Core(j) && Joined(g, i, j)
      ensures labels[i] == labels[j]
    {
      JoinedSameLabel(g, labels, i, j);
    }
    NoiseIsFar(p, labels, visited, c);
  }

  /** A border point is labelled exactly when a core point is near it. */
  lemma NoiseIsFar(p: Setting, labels: seq<int>, visited: seq<bool>, c: nat)
    requires p.Symmetric() && Outer(p, labels, visited, c) && forall i :: 0 <= i < p.n ==> visited[i]
    ensures forall i: nat :: i < p.n && !p.Core(i) ==>
              (labels[i] == -1 <==> forall k: nat :: k < p.n && p.Core(k) ==> !p.Near(i, k))
  {
    forall i: nat, k: nat | i < p.n && k < p.n && !p.Core(i) && p.Core(k) && p.Near(i, k) ensures labels[i] >= 0 {
      assert Settled(p, labels, k, labels[k]) && p.Near(k, i);
    }
    forall i: nat | i < p.n && !p.Core(i) && labels[i] >= 0
      ensures exists k: nat :: k < p.n && p.Core(k) && p.Near(i, k)
    {
      assert Supported(p, labels, i);
    }
  }

  lemma CoreLabelsAgree(p: Setting, labels: seq<int>, visited: seq<bool>, c: nat)
    requires Outer(p, labels, visited, c) && forall i :: 0 <= i < p.n ==> visited[i]
    ensures forall a, b :: (a, b) in p.CoreArcs() ==> a < |labels| && b < |labels| && labels[a] == labels[b]
  {
    forall a: nat, b: nat | (a, b) in p.CoreArcs() ensures labels[a] == labels[b] {
      assert Settled(p, labels, a, labels[a]);
    }
  }

  // ---------- the algorithm ----------

  /** Expand the first seed of the queue. */
  method ExpandFirst(p: Setting, labels: array<int>, visited: array<bool>, c: nat, ghost start: nat, seeds: seq<nat>)
    returns (seeds': seq<nat>)
    requires p.Symmetric() && labels.Length == visited.Length == p.n && |seeds| > 0
    requires Inner(p, labels[..], visited[..], seeds, c, start) && Ranked(p, labels[..], visited[..], c)
    modifies labels, visited
    ensures Inner(p, labels[..], visited[..], seeds', c, start) && Ranked(p, labels[..], visited[..], c)
    ensures Unvisited(visited[..]) + |seeds'| < old(Unvisited(visited[..])) + |seeds|
    ensures forall i :: 0 <= i < p.n && old(visited[i]) ==> visited[i]
  {
    hide Inner, Absorbed, Marked, Ranked;
    ghost var l, v := labels[..], visited[..];
    var current, rest := seeds[0], seeds[1..];
    SeedInRange(p, l, v, seeds, c, start, 0);
    assert [current] + rest == seeds;
    var around := RegionQuery(p, current);
    if |around| >= p.Required() {
      NeighboursDistinct(p, current, p.n);
      seeds' := Absorb(around, c, labels, visited, rest);
      ExpandCore(p, l, v, current, rest, c, start, labels[..], visited[..], seeds');
      RankedCore(p, l, v, current, rest, c, start, labels[..], visited[..], seeds');
      AbsorbedVisits(around, c, l, v, rest, labels[..], visited[..], seeds');
    } else {
      ExpandBorder(p, l, v, current, rest, c, start);
      seeds' := rest;
    }
  }

  method MarkStart(labels: array<int>, visited: array<bool>, c: nat, start: nat)
    requires labels.Length == visited.Length && start < labels.Length
    modifies labels, visited
    ensures labels[..] == old(labels[..])[start := c] && visited[..] == old(visited[..])[start := true]
  {
    visited[start] := true;
    labels[start] := c;
  }

  /** Open cluster c with a core point and its neighbours. */
  method SeedCluster(p: Setting, labels: array<int>, visited: array<bool>, c: nat, start: nat, neighbours: seq<nat>)
    returns (seeds: seq<nat>)
    requires p.Symmetric() && labels.Length == visited.Length == p.n && start < p.n
    requires Outer(p, labels[..], visited[..], c) && Ranked(p, labels[..], visited[..], c)
    requires p.Core(start) && !visited[start]
    requires neighbours == p.NeighboursTo(start, p.n)
    modifies labels, visited
    ensures Inner(p, labels[..], visited[..], seeds, c, start) && Ranked(p, labels[..], visited[..], c)
    ensures visited[start] && forall i :: 0 <= i < p.n && old(visited[i]) ==> visited[i]
  {
    hide *;
    ghost var l, v := labels[..], visited[..];
    assert l[start] == labels[start] && v[start] == visited[start];
    StartCluster(p, l, v, c, start);
    RankedStart(p, l, v, c, start);
    NeighboursDistinct(p, start, p.n);
    MarkStart(labels, visited, c, start);
    seeds := Absorb(neighbours, c, labels, visited, []);
    StartAbsorbed(p, l[start := c], v[start := true], c, start, labels[..], visited[..], seeds);
    assert forall i :: 0 <= i < p.n && v[i] ==> v[start := true][i];
  }

  /** The start and its neighbours form a consistent cluster. */
  lemma StartAbsorbed(p: Setting, labels: seq<int>, visited: seq<bool>, c: nat, start: nat,
      labels': seq<int>, visited': seq<bool>, seeds: seq<nat>)
    requires p.Symmetric() && Inner(p, labels, visited, [start], c, start) && Ranked(p, labels, visited, c)
    requires p.Core(start) && |labels| == |visited|
    requires Absorbed(p.NeighboursTo(start, p.n), c, labels, visited, [], labels', visited', seeds)
    ensures Inner(p, labels', visited', seeds, c, start) && Ranked(p, labels', visited', c)
    ensures |visited'| == |visited| && forall i :: 0 <= i < |visited| && visited[i] ==> visited'[i]
  {
    assert [start] + [] == [start];
    hide *;
    ExpandCore(p, labels, visited, start, [], c, start, labels', visited', seeds);
    RankedCore(p, labels, visited, start, [], c, start, labels', visited', seeds);
    AbsorbedVisits(p.NeighboursTo(start, p.n), c, labels, visited, [], labels', visited', seeds);
  }

  method GrowCluster(p: Setting, labels: array<int>, visited: array<bool>, c: nat, start: nat, neighbours: seq<nat>)
    requires p.Symmetric() && labels.Length == visited.Length == p.n && start < p.n
    requires Outer(p, labels[..], visited[..], c) && Ranked(p, labels[..], visited[..], c)
    requires p.Core(start) && !visited[start]
    requires neighbours == p.NeighboursTo(start, p.n) && forall u :: 0 <= u < start ==> visited[u]
    modifies labels, visited
    ensures Outer(p, labels[..], visited[..], c + 1) && Ranked(p, labels[..], visited[..], c + 1)
    ensures visited[start] && forall i :: 0 <= i < p.n && old(visited[i]) ==> visited[i]
  {
    var seeds := SeedCluster(p, labels, visited, c, start, neighbours);
    ghost var seen := visited[..];
    assert Earliest(seen, start);
    hide Outer, Inner, Ranked;
    while |seeds| > 0
      invariant Inner(p, labels[..], visited[..], seeds, c, start) && Ranked(p, labels[..], visited[..], c)
      invariant forall i :: 0 <= i < p.n && seen[i] ==> visited[i]
      decreases Unvisited(visited[..]) + |seeds|
    {
      seeds := ExpandFirst(p, labels, visited, c, start, seeds);
    }
    assert seeds == [];
    FinishCluster(p, labels[..], visited[..], c, start);
    RankedFinish(p, labels[..], visited[..], c, start);
  }

  lemma SeedInRange(p: Setting, labels: seq<int>, visited: seq<bool>, seeds: seq<nat>, c: nat, start: nat, k: nat)
    requires Inner(p, labels, visited, seeds, c, start) && k < |seeds|
    ensures seeds[k] < p.n
  {
    assert seeds[k] in seeds;
  }

  lemma AbsorbedVisits(neighbours: seq<nat>, c: int, labels: seq<int>, visited: seq<bool>, seeds: seq<nat>,
      labels': seq<int>, visited': seq<bool>, seeds': seq<nat>)
    requires |labels| == |visited|
    requires Absorbed(neighbours, c, labels, visited, seeds, labels', visited', seeds')
    ensures |visited'| == |visited| && forall i :: 0 <= i < |visited| && visited[i] ==> visited'[i]
    ensures Unvisited(visited') + |seeds'| == Unvisited(visited) + |seeds|
  {
  }

  lemma VisitNoise(p: Setting, labels: seq<int>, visited: seq<bool>, c: nat, i: nat)
    requires Outer(p, labels, visited, c) && i < p.n && !visited[i] && !p.Core(i)
    ensures labels[i] == -1 && Outer(p, labels, visited[i := true], c)
  {
  }

  lemma NothingVisited(p: Setting)
    ensures Outer(p, seq(p.n, _ => -1), seq(p.n, _ => false), 0)
    ensures Ranked(p, seq(p.n, _ => -1), seq(p.n, _ => false), 0)
  {
  }

  // ---------- what makes a core point ----------

  /** At least minSamples other points, and at least one, lie within eps. */
  ghost predicate EnoughWithin(p: Setting, i: nat) {
    exists s: set<nat> :: |s| >= 1 && |s| >= p.minSamples && OthersWithin(p, i, s)
  }

  ghost predicate OthersWithin(p: Setting, i: nat, s: set<nat>) {
    forall q :: q in s ==> q < p.n && q != i && p.dist(i, q) <= p.eps
  }

  lemma {:induction false} DistinctSize(s: seq<nat>, elements: set<nat>)
    requires Distinct(s) && forall x :: x in elements <==> x in s
    ensures |elements| == |s|
  {
    if s == [] {
      assert elements == {};
    } else {
      var last := |s| - 1;
      assert s == s[..last] + [s[last]];
      DistinctSize(s[..last], elements - {s[last]});
      assert s[last] in elements;
    }
  }

  lemma SubsetNoLarger(a: set<nat>, b: set<nat>)
    requires a <= b
    ensures |a| <= |b|
  {
    assert b == a + (b - a);
  }

  lemma CoreIff(p: Setting, i: nat)
    ensures p.Core(i) <==> EnoughWithin(p, i)
  {
    var around := p.NeighboursTo(i, p.n);
    var elements := set q | q in around;
    NeighboursDistinct(p, i, p.n);
    DistinctSize(around, elements);
    if p.Core(i) {
      assert OthersWithin(p, i, elements);
    }
    if s: set<nat> :| |s| >= 1 && |s| >= p.minSamples && OthersWithin(p, i, s) {
      SubsetNoLarger(s, elements);
    }
  }

  lemma AllCoresIff(p: Setting)
    ensures forall i: nat :: p.Core(i) <==> EnoughWithin(p, i)
  {
    forall i: nat ensures p.Core(i) <==> EnoughWithin(p, i) { CoreIff(p, i); }
  }

  /** The clustering, and which points it takes for core points. */
  method Cluster(p: Setting) returns (labels: array<int>)
    requires p.Symmetric()
    ensures exists c: nat :: IsClustering(p, labels[..], c)
    ensures forall i: nat :: p.Core(i) <==> EnoughWithin(p, i)
  {
    hide *;
    labels := LabelPoints(p);
    AllCoresIff(p);
  }

  method LabelPoints(p: Setting) returns (labels: array<int>)
    requires p.Symmetric()
    ensures exists c: nat :: IsClustering(p, labels[..], c)
  {
    hide Outer, Ranked, IsClustering;
    labels := new int[p.n](_ => -1);
    var visited := new bool[p.n](_ => false);
    var clusterId := 0;
    NothingVisited(p);
    assert labels[..] == seq(p.n, _ => -1) && visited[..] == seq(p.n, _ => false);
    for i := 0 to p.n
      invariant clusterId >= 0 && Outer(p, labels[..], visited[..], clusterId)
      invariant Ranked(p, labels[..], visited[..], clusterId)
      invariant forall k :: 0 <= k < i ==> visited[k]
    {
      if visited[i] { continue; }
      var neighbours := RegionQuery(p, i);
      if |neighbours| < p.Required() {
        ghost var l, v := labels[..], visited[..];
        VisitNoise(p, l, v, clusterId, i);
        RankedVisit(p, l, v, clusterId, i);
        visited[i] := true;
        labels[i] := -1;
        assert labels[..] == l && visited[..] == v[i := true];
        continue;
      }
      GrowCluster(p, labels, visited, clusterId, i, neighbours);
      clusterId := clusterId + 1;
    }
    AllVisited(p, labels[..], visited[..], clusterId);
  }

  // ---------- one clustering for each setting ----------

  /** The label of a core point is determined by the labels of the core points before it. */
  lemma {:induction false} CoreLabelUnique(p: Setting, a: seq<int>, c: nat, b: seq<int>, e: nat, i: nat)
    requires IsClustering(p, a, c) && IsClustering(p, b, e) && i < p.n && p.Core(i)
    ensures a[i] == b[i]
  {
    forall k: nat | k < i && p.Core(k) ensures a[k] == b[k] {
      CoreLabelUnique(p, a, c, b, e, k);
    }
    if a[i] < b[i] {
      SmallerLabel(p, a, c, b, e, i);
    } else if b[i] < a[i] {
      SmallerLabel(p, b, e, a, c, i);
    }
  }

  lemma SmallerLabel(p: Setting, a: seq<int>, c: nat, b: seq<int>, e: nat, i: nat)
    requires IsClustering(p, a, c) && IsClustering(p, b, e) && i < p.n && p.Core(i)
    requires forall k: nat :: k < i && p.Core(k) ==> a[k] == b[k]
    ensures a[i] >= b[i]
  {
    assert |a| == |b| == p.n && a[i] >= 0;
    hide IsClustering;
    if a[i] < b[i] {
      LabelTaken(p, a, c, b, e, i, a[i]);
    }
  }

  /** A smaller label than b[i] belongs to an earlier cluster, in a as in b. */
  lemma LabelTaken(p: Setting, a: seq<int>, c: nat, b: seq<int>, e: nat, i: nat, l: nat)
    requires IsClustering(p, a, c) && IsClustering(p, b, e) && i < p.n && p.Core(i)
    requires forall k: nat :: k < i && p.Core(k) ==> a[k] == b[k]
    requires l < b[i]
    ensures a[i] != l
  {
    hide Joined, Setting.CoreArcs, Used, BorderLeast;
    assert Preceded(p, b, l, i);
    var k: nat :| k < i && HasLabel(p, b, k, l);
    assert a[k] == l && b[k] != b[i];
  }

  /** Two clusterings of one setting are equal. */
  lemma ClusteringUnique(p: Setting, a: seq<int>, c: nat, b: seq<int>, e: nat)
    requires IsClustering(p, a, c) && IsClustering(p, b, e)
    ensures a == b && c == e
  {
    forall i: nat | i < p.n && p.Core(i) ensures a[i] == b[i] {
      CoreLabelUnique(p, a, c, b, e, i);
    }
    forall i: nat | i < p.n && !p.Core(i) ensures a[i] == b[i] {
      BorderLabelUnique(p, a, c, b, e, i);
    }
    AsManyIds(p, a, c, b, e);
    AsManyIds(p, b, e, a, c);
  }

  lemma BorderLabelUnique(p: Setting, a: seq<int>, c: nat, b: seq<int>, e: nat, q: nat)
    requires IsClustering(p, a, c) && IsClustering(p, b, e) && q < p.n && !p.Core(q)
    requires forall i: nat :: i < p.n && p.Core(i) ==> a[i] == b[i]
    ensures a[q] == b[q]
  {
    hide Joined, Setting.CoreArcs, Setting.Core, Setting.Near, Used, Ordered;
    if k: nat :| k < p.n && p.Core(k) && p.Near(q, k) {
      var x: nat :| x < p.n && p.Core(x) && p.Near(q, x) && a[q] == a[x];
      var y: nat :| y < p.n && p.Core(y) && p.Near(q, y) && b[q] == b[y];
      assert a[q] <= a[y] && b[q] <= b[x];
    }
  }

  lemma AsManyIds(p: Setting, a: seq<int>, c: nat, b: seq<int>, e: nat)
    requires IsClustering(p, a, c) && IsClustering(p, b, e)
    requires forall i: nat :: i < p.n && p.Core(i) ==> a[i] == b[i]
    ensures c <= e
  {
    hide Joined, Setting.CoreArcs, Setting.Core, Setting.Near, Ordered, BorderLeast;
    if c > 0 {
      assert Used(p, a, c - 1);
      var i: nat :| HasLabel(p, a, i, c - 1);
      assert b[i] < e;
    }
  }
}
