/** The union-find structure with path halving that connected components, Kruskal and single
    linkage share. */
module UnionFind {
  import opened Graph

  /** x and y are merged: y's class takes over the representative of x. */
  ghost function Merged(rep: seq<nat>, x: nat, y: nat): (r: seq<nat>)
    requires x < |rep| && y < |rep|
  {
    seq(|rep|, i requires 0 <= i < |rep| => if rep[i] == rep[y] then rep[x] else rep[i])
  }

  /** Equal representatives exactly for joined vertices. */
  ghost predicate Represents(rep: seq<nat>, g: Arcs) {
    forall u: nat, v: nat :: u < |rep| && v < |rep| ==> (rep[u] == rep[v] <==> Joined(g, u, v))
  }

  /** Merging the endpoints of an edge keeps the partition equal to connectivity. */
  lemma MergeRepresents(rep: seq<nat>, g: Arcs, x: nat, y: nat)
    requires Symmetric(g) && Represents(rep, g) && x < |rep| && y < |rep|
    ensures Represents(Merged(rep, x, y), WithEdge(g, x, y))
  {
    forall u: nat, v: nat | u < |rep| && v < |rep|
      ensures Merged(rep, x, y)[u] == Merged(rep, x, y)[v] <==> Joined(WithEdge(g, x, y), u, v)
    {
      OneMoreEdge(g, x, y, u, v);
    }
  }

  lemma MergingRoots(rep: seq<nat>, x: nat, y: nat)
    requires x < |rep| && y < |rep| && rep[x] < |rep| && rep[y] < |rep|
    requires rep[rep[x]] == rep[x] && rep[rep[y]] == rep[y]
    ensures Merged(rep, rep[x], rep[y]) == Merged(rep, x, y)
    ensures rep[x] == rep[y] ==> Merged(rep, x, y) == rep
  {
  }

  lemma IdentityRepresents(n: nat)
    ensures Represents(seq(n, i => i), {})
  {
    var g: Arcs := {};
    forall u: nat, v: nat | u < n && v < n ensures u == v <==> Joined(g, u, v) {
      JoinedRefl(g, u);
      if Joined(g, u, v) { NothingJoined(g, u, v); }
    }
  }

  ghost function Highest(s: seq<nat>): (m: nat)
    ensures forall i :: 0 <= i < |s| ==> s[i] <= m
  {
    if s == [] then 0
    else
      var m := Highest(s[..|s| - 1]);
      if s[|s| - 1] > m then s[|s| - 1] else m
  }

  /** Every link leads towards the vertex's representative, and heights grow along links. */
  ghost predicate Linked(parent: seq<nat>, rep: seq<nat>, height: seq<nat>) {
    && |rep| == |height| == |parent|
    && (forall x {:trigger parent[x]} :: 0 <= x < |parent| ==> parent[x] < |parent|)
    && (forall x {:trigger rep[x]} :: 0 <= x < |parent| ==> rep[x] < |parent|)
    && (forall x {:trigger parent[x]} :: 0 <= x < |parent| ==> rep[parent[x]] == rep[x])
    && (forall x {:trigger rep[x]} :: 0 <= x < |parent| ==> parent[rep[x]] == rep[x])
    && (forall x {:trigger parent[x]} :: 0 <= x < |parent| ==>
          if parent[x] == x then rep[x] == x else height[x] < height[parent[x]])
  }

  lemma HalvingKeepsLinks(parent: seq<nat>, rep: seq<nat>, height: seq<nat>, x: nat)
    requires Linked(parent, rep, height) && x < |parent| && parent[x] != x
    ensures Linked(parent[x := parent[parent[x]]], rep, height)
  {
    var p := parent[x];
    assert rep[parent[p]] == rep[p] == rep[x];
    assert parent[p] == p || height[p] < height[parent[p]];
  }

  function Taller(height: seq<nat>, x: nat, y: nat): seq<nat>
    requires x < |height| && y < |height|
  {
    height[x := if height[x] > height[y] then height[x] else height[y] + 1]
  }

  lemma LinkingKeepsLinks(parent: seq<nat>, rep: seq<nat>, height: seq<nat>, x: nat, y: nat)
    requires Linked(parent, rep, height) && x < |parent| && y < |parent|
    requires rep[x] == x && rep[y] == y && x != y
    ensures Linked(parent[y := x], Merged(rep, x, y), Taller(height, x, y))
  {
    assert parent[x] == x && parent[y] == y;
  }

  class DisjointSets {
    const parent: array<nat>
    ghost var rep: seq<nat>      // the root each vertex leads to
    ghost var height: seq<nat>

    ghost predicate Valid()
      reads this, parent
    {
      Linked(parent[..], rep, height)
    }

    constructor (n: nat)
      ensures Valid() && fresh(parent)
      ensures parent.Length == n && rep == seq(n, i => i)
    {
      parent := new nat[n](i => i);
      rep := seq(n, i => i);
      height := seq(n, i => 0);
    }

    /** Path halving changes links but no root. */
    method Find(start: nat) returns (root: nat)
      requires Valid() && start < parent.Length
      modifies parent
      ensures Valid()
      ensures root == rep[start] && root < parent.Length && rep[root] == root
    {
      root := start;
      while parent[root] != root
        invariant root < parent.Length && Valid() && rep[root] == rep[start]
        decreases Highest(height) - height[root]
      {
        ghost var links := parent[..];
        HalvingKeepsLinks(links, rep, height, root);
        ghost var child := root;
        parent[root] := parent[parent[root]];
        assert parent[..] == links[child := links[links[child]]];
        root := parent[root];
      }
    }

    /** Link one root below another, as union and Kruskal do. */
    method Link(rootX: nat, rootY: nat)
      requires Valid() && rootX < parent.Length && rootY < parent.Length
      requires rep[rootX] == rootX && rep[rootY] == rootY && rootX != rootY
      modifies this`rep, this`height, parent
      ensures Valid()
      ensures rep == Merged(old(rep), rootX, rootY)
    {
      LinkingKeepsLinks(parent[..], rep, height, rootX, rootY);
      parent[rootY] := rootX;
      rep := Merged(rep, rootX, rootY);
      height := Taller(height, rootX, rootY);
      assert parent[..] == old(parent[..])[rootY := rootX];
    }

    method Union(x: nat, y: nat)
      requires Valid() && x < parent.Length && y < parent.Length
      modifies this`rep, this`height, parent
      ensures Valid()
      ensures rep == Merged(old(rep), x, y)
    {
      var px := Find(x);
      var py := Find(y);
      MergingRoots(rep, x, y);
      if px != py {
        Link(px, py);
      }
    }
  }
}
