/** The computational graph, its file format, and the round trip through it.  The graph keeps its
    nodes distinct and its edges among them; the file lists node tensors, then edges by node index,
    each with its gradient tensor.  Loading succeeds exactly on readable files. */
module GraphFile {
  import opened Wrappers
  import opened Sorting

  // ---------- tensors ----------

  datatype Tensor = Tensor(shape: seq<nat>, data: seq<real>) {
    /** What the constructor checks.  The data can be resized afterwards, the shape cannot. */
    predicate WellFormed() {
      Numel(shape) == |data|
    }
  }

  function Product(shape: seq<nat>): nat {
    if shape == [] then 1 else Product(shape[..|shape| - 1]) * shape[|shape| - 1]
  }

  /** An empty shape has no elements. */
  function Numel(shape: seq<nat>): nat {
    if shape == [] then 0 else Product(shape)
  }

  lemma {:induction false} ProductConcat(a: seq<nat>, b: seq<nat>)
    ensures Product(a + b) == Product(a) * Product(b)
  {
    if b == [] {
      assert a + b == a;
    } else {
      var last := |b| - 1;
      ProductConcat(a, b[..last]);
      assert (a + b)[..|a + b| - 1] == a + b[..last];
      assert (Product(a) * Product(b[..last])) * b[last] == Product(a) * (Product(b[..last]) * b[last]);
    }
  }

  /** The element count: 0 without dimensions, the size of the only one, and a product over a shape
      that is put together from two. */
  lemma NumelConcat(a: seq<nat>, b: seq<nat>)
    requires a != [] && b != []
    ensures Numel(a + b) == Numel(a) * Numel(b)
    ensures Numel([]) == 0 && forall x: nat :: Numel([x]) == x
  {
    ProductConcat(a, b);
    forall x: nat ensures Numel([x]) == x { NumelOne(x); }
  }

  lemma NumelOne(x: nat)
    ensures Numel([x]) == x
  {
    assert [x][..0] == [];
    assert Product([x]) == Product([]) * x;
  }

  type EdgeEnds = (Tensor, Tensor)

  /** A gradient has one value, or one for each value of the source tensor. */
  predicate Broadcastable(gradient: Tensor, size: nat) {
    |gradient.data| == size || |gradient.data| == 1
  }

  // ---------- the graph ----------

  datatype State = State(nodes: seq<Tensor>, edges: seq<EdgeEnds>, gradients: seq<Tensor>)

  ghost predicate AllWellFormed(ts: seq<Tensor>) {
    forall i :: 0 <= i < |ts| ==> ts[i].WellFormed()
  }

  ghost predicate EdgesFit(s: State) {
    && |s.gradients| == |s.edges|
    && forall i :: 0 <= i < |s.edges| ==>
         && s.edges[i].0 in s.nodes && s.edges[i].1 in s.nodes
         && Broadcastable(s.gradients[i], |s.edges[i].0.data|)
  }

  /** Nodes are pairwise distinct, edges join nodes, and every gradient fits its source. */
  ghost predicate ValidState(s: State) {
    Distinct(s.nodes) && EdgesFit(s)
  }

  /** Every tensor of the graph still has the shape of its data. */
  ghost predicate Consistent(s: State) {
    AllWellFormed(s.nodes) && AllWellFormed(s.gradients)
  }

  /** The index of the first equal tensor, |nodes| when there is none. */
  method FindNode(nodes: seq<Tensor>, t: Tensor) returns (i: nat)
    ensures i <= |nodes| && (i < |nodes| ==> nodes[i] == t)
    ensures t !in nodes[..i]
    ensures i == |nodes| <==> t !in nodes
  {
    i := 0;
    while i < |nodes|
      invariant i <= |nodes| && t !in nodes[..i]
    {
      if nodes[i] == t { return; }
      i := i + 1;
    }
    assert nodes[..|nodes|] == nodes;
  }

  function Ensured(nodes: seq<Tensor>, t: Tensor): (r: seq<Tensor>)
    ensures t in r && forall u :: u in nodes ==> u in r
  {
    if t in nodes then nodes else nodes + [t]
  }

  lemma EnsureKeepsValid(s: State, t: Tensor)
    requires ValidState(s)
    ensures ValidState(s.(nodes := Ensured(s.nodes, t)))
  {
  }

  lemma AddEdgeKeepsValid(s: State, from: Tensor, to: Tensor, gradient: Tensor)
    requires ValidState(s)
    requires from in s.nodes && to in s.nodes && Broadcastable(gradient, |from.data|)
    ensures ValidState(State(s.nodes, s.edges + [(from, to)], s.gradients + [gradient]))
  {
  }

  type EdgeKey = (EdgeEnds, Tensor) -> string

  /** Edges whose key has not occurred before, with their gradients. */
  ghost function FirstByKey(edges: seq<EdgeEnds>, gradients: seq<Tensor>, key: EdgeKey)
      : (r: (seq<EdgeEnds>, seq<Tensor>))
    requires |edges| == |gradients|
    ensures |r.0| == |r.1|
  {
    if edges == [] then ([], [])
    else
      var n := |edges| - 1;
      var (es, gs) := FirstByKey(edges[..n], gradients[..n], key);
      if key(edges[n], gradients[n]) in KeysOf(edges[..n], gradients[..n], key) then (es, gs)
      else (es + [edges[n]], gs + [gradients[n]])
  }

  ghost function KeysOf(edges: seq<EdgeEnds>, gradients: seq<Tensor>, key: EdgeKey): (keys: set<string>)
    requires |edges| == |gradients|
  {
    set i | 0 <= i < |edges| :: key(edges[i], gradients[i])
  }

  lemma {:induction false} FirstByKeyFits(nodes: seq<Tensor>, edges: seq<EdgeEnds>, gradients: seq<Tensor>,
      key: EdgeKey)
    requires EdgesFit(State(nodes, edges, gradients))
    ensures var (es, gs) := FirstByKey(edges, gradients, key); EdgesFit(State(nodes, es, gs))
  {
    if edges != [] {
      FirstByKeyFits(nodes, edges[..|edges| - 1], gradients[..|edges| - 1], key);
    }
  }

  lemma KeysSnoc(edges: seq<EdgeEnds>, gradients: seq<Tensor>, key: EdgeKey, i: nat)
    requires |edges| == |gradients| && i < |edges|
    ensures KeysOf(edges[..i + 1], gradients[..i + 1], key) ==
              KeysOf(edges[..i], gradients[..i], key) + {key(edges[i], gradients[i])}
  {
    var a, b := edges[..i + 1], gradients[..i + 1];
    forall k | k in KeysOf(edges[..i], gradients[..i], key) + {key(edges[i], gradients[i])}
      ensures k in KeysOf(a, b, key)
    {
      if k == key(edges[i], gradients[i]) {
        assert key(a[i], b[i]) == k;
      } else {
        var j :| 0 <= j < i && key(edges[j], gradients[j]) == k;
        assert key(a[j], b[j]) == k;
      }
    }
  }

  class ComputationalGraph {
    var nodes: seq<Tensor>
    var edges: seq<EdgeEnds>
    var gradients: seq<Tensor>

    ghost function Value(): State
      reads this
    {
      State(nodes, edges, gradients)
    }

    ghost predicate Valid()
      reads this
    {
      ValidState(Value())
    }

    constructor ()
      ensures Valid() && Value() == State([], [], [])
    {
      nodes, edges, gradients := [], [], [];
    }

    method EnsureNode(t: Tensor)
      requires Valid()
      modifies this
      ensures Valid() && Value() == old(Value()).(nodes := Ensured(old(nodes), t))
    {
      EnsureKeepsValid(Value(), t);
      var i := FindNode(nodes, t);
      if i == |nodes| {
        nodes := nodes + [t];
      }
    }

    method AddNode(t: Tensor)
      requires Valid()
      modifies this
      ensures Valid() && Value() == old(Value()).(nodes := Ensured(old(nodes), t))
    {
      EnsureNode(t);
    }

    /** The two nodes are added before the gradient is checked, so a rejected edge leaves them. */
    method AddEdge(from: Tensor, to: Tensor, gradient: Tensor) returns (r: Result<()>)
      requires Valid()
      modifies this
      ensures Valid()
      ensures nodes == Ensured(Ensured(old(nodes), from), to)
      ensures r == if |gradient.data| == |from.data| || |gradient.data| == 1 then Success(())
                   else Failure(GradientShape)
      ensures edges == if r.Success? then old(edges) + [(from, to)] else old(edges)
      ensures gradients == if r.Success? then old(gradients) + [gradient] else old(gradients)
    {
      EnsureNode(from);
      EnsureNode(to);
      if !Broadcastable(gradient, |from.data|) { return Failure(GradientShape); }
      AddEdgeKeepsValid(Value(), from, to, gradient);
      edges := edges + [(from, to)];
      gradients := gradients + [gradient];
      r := Success(());
    }

    method Clear()
      modifies this
      ensures Valid() && Value() == State([], [], [])
    {
      nodes, edges, gradients := [], [], [];
    }

    /** Drop repeated nodes and edges that repeat a text key.  No node is ever repeated, so only
        edges go, and the first edge of each key stays. */
    method Optimize(key: EdgeKey)
      requires Valid()
      modifies this
      ensures Valid() && nodes == old(nodes)
      ensures (edges, gradients) == FirstByKey(old(edges), old(gradients), key)
    {
      ghost var s := Value();
      var compactNodes := CompactNodes(nodes);
      var seen: set<string> := {};
      var compactEdges: seq<EdgeEnds>, compactGradients: seq<Tensor> := [], [];
      for i := 0 to |edges|
        invariant Value() == s && seen == KeysOf(s.edges[..i], s.gradients[..i], key)
        invariant (compactEdges, compactGradients) == FirstByKey(s.edges[..i], s.gradients[..i], key)
      {
        var (from, to) := edges[i];
        var fromIndex := FindNode(compactNodes, from);
        var toIndex := FindNode(compactNodes, to);
        FirstByKeySnoc(s.edges, s.gradients, key, i);
        KeysSnoc(s.edges, s.gradients, key, i);
        if fromIndex == |compactNodes| || toIndex == |compactNodes| { continue; }
        var k := key((from, to), gradients[i]);
        if k !in seen {
          compactEdges := compactEdges + [(compactNodes[fromIndex], compactNodes[toIndex])];
          compactGradients := compactGradients + [gradients[i]];
        }
        seen := seen + {k};
      }
      assert s.edges[..|s.edges|] == s.edges && s.gradients[..|s.edges|] == s.gradients;
      FirstByKeyFits(s.nodes, s.edges, s.gradients, key);
      nodes, edges, gradients := compactNodes, compactEdges, compactGradients;
    }
  }

  lemma FirstByKeySnoc(edges: seq<EdgeEnds>, gradients: seq<Tensor>, key: EdgeKey, i: nat)
    requires |edges| == |gradients| && i < |edges|
    ensures var (es, gs) := FirstByKey(edges[..i], gradients[..i], key);
            FirstByKey(edges[..i + 1], gradients[..i + 1], key) ==
            if key(edges[i], gradients[i]) in KeysOf(edges[..i], gradients[..i], key) then (es, gs)
            else (es + [edges[i]], gs + [gradients[i]])
  {
    assert edges[..i + 1][..i] == edges[..i] && gradients[..i + 1][..i] == gradients[..i];
  }

  /** Removing duplicates from distinct nodes changes nothing. */
  method CompactNodes(nodes: seq<Tensor>) returns (compact: seq<Tensor>)
    requires Distinct(nodes)
    ensures compact == nodes
  {
    compact := [];
    for i := 0 to |nodes|
      invariant compact == nodes[..i]
    {
      assert nodes[i] !in nodes[..i];
      var k := FindNode(compact, nodes[i]);
      if k == |compact| {
        compact := compact + [nodes[i]];
      }
    }
  }

  // ---------- the file format ----------

  /** A number reads as a value anywhere, and as a count when it is a natural one. */
  datatype Token = Word(text: string) | Number(x: real) {
    predicate IsCount() {
      Number? && x >= 0.0 && x == x.Floor as real
    }

    function CountOf(): (n: nat)
      requires IsCount()
      ensures this == Number(n as real)
    {
      x.Floor
    }
  }

  function Count(n: nat): (t: Token)
    ensures t.IsCount() && t.CountOf() == n
  {
    Number(n as real)
  }

  const GRAPH_FORMAT := "nerve_autodiff_graph_v1"

  ghost function Counts(ns: seq<nat>): (ts: seq<Token>) {
    seq(|ns|, i requires 0 <= i < |ns| => Count(ns[i]))
  }

  ghost function Values(xs: seq<real>): (ts: seq<Token>) {
    seq(|xs|, i requires 0 <= i < |xs| => Number(xs[i]))
  }

  ghost function TensorTokens(t: Tensor): (ts: seq<Token>) {
    [Word("tensor"), Count(|t.data|), Count(|t.shape|)] + Counts(t.shape) + Values(t.data)
  }

  ghost function TensorsTokens(ts: seq<Tensor>): seq<Token> {
    if ts == [] then [] else TensorsTokens(ts[..|ts| - 1]) + TensorTokens(ts[|ts| - 1])
  }

  /** The position findNode reports: the first one, |nodes| when absent. */
  ghost function IndexIn(nodes: seq<Tensor>, t: Tensor): (i: nat)
    ensures i <= |nodes| && (i < |nodes| ==> nodes[i] == t) && t !in nodes[..i]
    ensures t in nodes ==> i < |nodes|
  {
    if nodes == [] || nodes[0] == t then 0
    else
      assert nodes == [nodes[0]] + nodes[1..];
      var i := 1 + IndexIn(nodes[1..], t);
      assert nodes[..i] == [nodes[0]] + nodes[1..][..i - 1];
      i
  }

  ghost function EdgeTokens(nodes: seq<Tensor>, e: EdgeEnds, gradient: Tensor): seq<Token> {
    [Word("edge"), Count(IndexIn(nodes, e.0)), Count(IndexIn(nodes, e.1))] + TensorTokens(gradient)
  }

  ghost function EdgesTokens(nodes: seq<Tensor>, edges: seq<EdgeEnds>, gradients: seq<Tensor>): seq<Token>
    requires |edges| == |gradients|
  {
    if edges == [] then []
    else
      var n := |edges| - 1;
      EdgesTokens(nodes, edges[..n], gradients[..n]) + EdgeTokens(nodes, edges[n], gradients[n])
  }

  ghost function GraphTokens(s: State): seq<Token>
    requires EdgesFit(s)
  {
    [Word(GRAPH_FORMAT), Word("nodes"), Count(|s.nodes|)] + TensorsTokens(s.nodes)
    + [Word("edges"), Count(|s.edges|)] + EdgesTokens(s.nodes, s.edges, s.gradients)
  }

  // ---------- writing ----------

  method WriteTensor(out: seq<Token>, t: Tensor) returns (out': seq<Token>)
    ensures out' == out + TensorTokens(t)
  {
    out' := out + [Word("tensor"), Count(|t.data|), Count(|t.shape|)];
    for i := 0 to |t.shape|
      invariant out' == out + [Word("tensor"), Count(|t.data|), Count(|t.shape|)] + Counts(t.shape[..i])
    {
      assert Counts(t.shape[..i + 1]) == Counts(t.shape[..i]) + [Count(t.shape[i])];
      out' := out' + [Count(t.shape[i])];
    }
    assert t.shape[..|t.shape|] == t.shape;
    for i := 0 to |t.data|
      invariant out' == out + [Word("tensor"), Count(|t.data|), Count(|t.shape|)] + Counts(t.shape)
                        + Values(t.data[..i])
    {
      assert Values(t.data[..i + 1]) == Values(t.data[..i]) + [Number(t.data[i])];
      out' := out' + [Number(t.data[i])];
    }
    assert t.data[..|t.data|] == t.data;
  }

  lemma EdgesTokensSnoc(nodes: seq<Tensor>, edges: seq<EdgeEnds>, gradients: seq<Tensor>, i: nat)
    requires |edges| == |gradients| && i < |edges|
    ensures EdgesTokens(nodes, edges[..i + 1], gradients[..i + 1])
         == EdgesTokens(nodes, edges[..i], gradients[..i]) + EdgeTokens(nodes, edges[i], gradients[i])
  {
    assert edges[..i + 1][..i] == edges[..i] && gradients[..i + 1][..i] == gradients[..i];
  }

  method WriteTensors(out: seq<Token>, ts: seq<Tensor>) returns (out': seq<Token>)
    ensures out' == out + TensorsTokens(ts)
  {
    out' := out;
    for i := 0 to |ts|
      invariant out' == out + TensorsTokens(ts[..i])
    {
      assert ts[..i + 1][..i] == ts[..i];
      hide TensorTokens;
      out' := WriteTensor(out', ts[i]);
      assert out + TensorsTokens(ts[..i]) + TensorTokens(ts[i]) == out + (TensorsTokens(ts[..i]) + TensorTokens(ts[i]));
    }
    assert ts[..|ts|] == ts;
  }

  ghost predicate EndsAmong(nodes: seq<Tensor>, edges: seq<EdgeEnds>) {
    forall i :: 0 <= i < |edges| ==> edges[i].0 in nodes && edges[i].1 in nodes
  }

  method WriteEdges(out: seq<Token>, nodes: seq<Tensor>, edges: seq<EdgeEnds>, gradients: seq<Tensor>)
    returns (r: Result<seq<Token>>)
    requires |edges| == |gradients|
    ensures EndsAmong(nodes, edges) ==> r == Success(out + EdgesTokens(nodes, edges, gradients))
    ensures !EndsAmong(nodes, edges) ==> r == Failure(MissingNode)
  {
    hide TensorTokens, EdgesTokens, EdgeTokens;
    var longer := out;
    ghost var written: seq<Token> := [];
    NoEdgesTokens(nodes);
    for i := 0 to |edges|
      invariant longer == out + written && written == EdgesTokens(nodes, edges[..i], gradients[..i])
      invariant forall k :: 0 <= k < i ==> edges[k].0 in nodes && edges[k].1 in nodes
    {
      EdgesTokensSnoc(nodes, edges, gradients, i);
      var next := WriteEdge(longer, nodes, edges[i], gradients[i]);
      if next.Failure? { return Failure(MissingNode); }
      Associate(out, written, EdgeTokens(nodes, edges[i], gradients[i]));
      written := written + EdgeTokens(nodes, edges[i], gradients[i]);
      longer := next.value;
    }
    assert edges[..|edges|] == edges && gradients[..|edges|] == gradients;
    r := Success(longer);
  }

  lemma NoEdgesTokens(nodes: seq<Tensor>)
    ensures EdgesTokens(nodes, [], []) == []
  {
  }

  lemma Associate(a: seq<Token>, b: seq<Token>, c: seq<Token>)
    ensures (a + b) + c == a + (b + c)
  {
  }

  /** Saving a valid graph never meets a missing node. */
  method SaveGraph(graph: ComputationalGraph) returns (r: Result<seq<Token>>)
    requires graph.Valid()
    ensures r == Success(GraphTokens(graph.Value()))
    ensures |r.value| >= 3 && r.value[..2] == [Word("nerve_autodiff_graph_v1"), Word("nodes")]
    ensures r.value[2] == Number(|graph.nodes| as real)
  {
    var nodes, edges, gradients := graph.nodes, graph.edges, graph.gradients;
    if |edges| != |gradients| { return Failure(LengthMismatch); }
    hide TensorsTokens, EdgesTokens, Distinct, AllWellFormed;
    var out := [Word(GRAPH_FORMAT), Word("nodes"), Count(|nodes|)];
    out := WriteTensors(out, nodes);
    out := out + [Word("edges"), Count(|edges|)];
    r := WriteEdges(out, nodes, edges, gradients);
  }

  method WriteEdge(out: seq<Token>, nodes: seq<Tensor>, e: EdgeEnds, gradient: Tensor) returns (r: Result<seq<Token>>)
    ensures e.0 in nodes && e.1 in nodes ==> r == Success(out + EdgeTokens(nodes, e, gradient))
    ensures !(e.0 in nodes && e.1 in nodes) ==> r == Failure(MissingNode)
  {
    var from := FindNode(nodes, e.0);
    var to := FindNode(nodes, e.1);
    if from == |nodes| || to == |nodes| { return Failure(MissingNode); }
    FirstIndex(nodes, e.0, from);
    FirstIndex(nodes, e.1, to);
    hide TensorTokens;
    var longer := out + [Word("edge"), Count(from), Count(to)];
    longer := WriteTensor(longer, gradient);
    assert longer == out + ([Word("edge"), Count(from), Count(to)] + TensorTokens(gradient));
    r := Success(longer);
  }

  lemma FirstIndex(nodes: seq<Tensor>, t: Tensor, i: nat)
    requires i < |nodes| && nodes[i] == t && t !in nodes[..i]
    ensures t in nodes && IndexIn(nodes, t) == i
  {
    var k := IndexIn(nodes, t);
    forall j | 0 <= j < i ensures nodes[j] != t {
      assert nodes[..i][j] == nodes[j];
    }
    forall j | 0 <= j < k ensures nodes[j] != t {
      assert nodes[..k][j] == nodes[j];
    }
  }

  // ---------- reading ----------

  method ReadCounts(input: seq<Token>, n: nat) returns (r: Result<seq<nat>>, rest: seq<Token>)
    ensures r.Success? ==> |r.value| == n && input == Counts(r.value) + rest
    ensures forall ns: seq<nat>, tail: seq<Token> :: |ns| == n && input == Counts(ns) + tail ==> r == Success(ns)
  {
    var ns: seq<nat> := [];
    rest := input;
    for i := 0 to n
      invariant |ns| == i && i <= |input| && rest == input[i..]
      invariant forall k :: 0 <= k < i ==> input[k] == Count(ns[k])
    {
      if |rest| == 0 || !rest[0].IsCount() {
        NoCounts(input, n, i);
        return Failure(BadGraphFile), rest;
      }
      ns := ns + [rest[0].CountOf()];
      rest := rest[1..];
    }
    assert input == Counts(ns) + rest;
    forall ms: seq<nat>, tail | |ms| == n && input == Counts(ms) + tail ensures ns == ms {
      forall k | 0 <= k < n ensures ns[k] == ms[k] {
        assert input[k] == Counts(ms)[k];
      }
    }
    r := Success(ns);
  }

  lemma NoCounts(input: seq<Token>, n: nat, i: nat)
    requires i < n && (i < |input| ==> !input[i].IsCount())
    ensures forall ns: seq<nat>, tail :: |ns| == n ==> input != Counts(ns) + tail
  {
    forall ns: seq<nat>, tail | |ns| == n ensures input != Counts(ns) + tail {
      assert (Counts(ns) + tail)[i] == Count(ns[i]);
    }
  }

  method ReadValues(input: seq<Token>, n: nat) returns (r: Result<seq<real>>, rest: seq<Token>)
    ensures r.Success? ==> |r.value| == n && input == Values(r.value) + rest
    ensures forall xs: seq<real>, tail: seq<Token> :: |xs| == n && input == Values(xs) + tail ==> r == Success(xs)
  {
    var xs: seq<real> := [];
    rest := input;
    for i := 0 to n
      invariant |xs| == i && i <= |input| && rest == input[i..]
      invariant forall k :: 0 <= k < i ==> input[k] == Number(xs[k])
    {
      if |rest| == 0 || !rest[0].Number? {
        NoValues(input, n, i);
        return Failure(BadGraphFile), rest;
      }
      xs := xs + [rest[0].x];
      rest := rest[1..];
    }
    assert input == Values(xs) + rest;
    forall ys: seq<real>, tail | |ys| == n && input == Values(ys) + tail ensures xs == ys {
      forall k | 0 <= k < n ensures xs[k] == ys[k] {
        assert input[k] == Values(ys)[k];
      }
    }
    r := Success(xs);
  }

  lemma NoValues(input: seq<Token>, n: nat, i: nat)
    requires i < n && (i < |input| ==> !input[i].Number?)
    ensures forall xs: seq<real>, tail :: |xs| == n ==> input != Values(xs) + tail
  {
    forall xs: seq<real>, tail | |xs| == n ensures input != Values(xs) + tail {
      assert (Values(xs) + tail)[i] == Number(xs[i]);
    }
  }

  /** Reads a tensor exactly when the input starts with the record of a well-formed one. */
  method ReadTensor(input: seq<Token>) returns (r: Result<Tensor>, rest: seq<Token>)
    ensures r.Success? ==> r.value.WellFormed() && input == TensorTokens(r.value) + rest
    ensures forall t: Tensor, tail: seq<Token> :: t.WellFormed() && input == TensorTokens(t) + tail ==>
              r == Success(t) && rest == tail
  {
    rest := input;
    if |input| < 3 || input[0] != Word("tensor") || !input[1].IsCount() || !input[2].IsCount() {
      forall t: Tensor, tail: seq<Token> ensures input != TensorTokens(t) + tail {
        RecordHead(t, tail);
      }
      return Failure(BadGraphFile), rest;
    }
    var dataCount, shapeCount := input[1].CountOf(), input[2].CountOf();
    var body := input[3..];
    var shape, afterShape := ReadCounts(body, shapeCount);
    forall t: Tensor, tail | input == TensorTokens(t) + tail
      ensures |t.data| == dataCount && |t.shape| == shapeCount && body == Counts(t.shape) + (Values(t.data) + tail)
    {
      RecordHead(t, tail);
    }
    if shape.Failure? { return Failure(BadGraphFile), rest; }
    var data, afterData := ReadValues(afterShape, dataCount);
    forall t: Tensor, tail | input == TensorTokens(t) + tail
      ensures shape == Success(t.shape) && data == Success(t.data) && afterData == tail
    {
      SameSplit(body, shape.value, afterShape, t.shape, Values(t.data) + tail);
      if data.Success? { SameValueSplit(afterShape, data.value, afterData, t.data, tail); }
    }
    if data.Failure? { return Failure(BadGraphFile), rest; }
    var t := Tensor(shape.value, data.value);
    if Numel(t.shape) != |t.data| { return Failure(BadGraphFile), rest; }
    assert input == [input[0], input[1], input[2]] + body;
    assert input == TensorTokens(t) + afterData;
    r, rest := Success(t), afterData;
  }

  lemma RecordHead(t: Tensor, tail: seq<Token>)
    ensures var ts := TensorTokens(t) + tail;
            && |ts| >= 3 && ts[0] == Word("tensor") && ts[1] == Count(|t.data|) && ts[2] == Count(|t.shape|)
            && ts[3..] == Counts(t.shape) + (Values(t.data) + tail)
  {
  }

  lemma SameSplit(input: seq<Token>, a: seq<nat>, afterA: seq<Token>, b: seq<nat>, afterB: seq<Token>)
    requires |a| == |b| && input == Counts(a) + afterA == Counts(b) + afterB
    ensures a == b && afterA == afterB
  {
    forall k | 0 <= k < |a| ensures a[k] == b[k] {
      assert input[k] == Counts(a)[k] == Counts(b)[k];
    }
    assert afterA == input[|a|..] && afterB == input[|b|..];
  }

  lemma SameValueSplit(input: seq<Token>, a: seq<real>, afterA: seq<Token>, b: seq<real>, afterB: seq<Token>)
    requires |a| == |b| && input == Values(a) + afterA == Values(b) + afterB
    ensures a == b && afterA == afterB
  {
    forall k | 0 <= k < |a| ensures a[k] == b[k] {
      assert input[k] == Values(a)[k] == Values(b)[k];
    }
    assert afterA == input[|a|..] && afterB == input[|b|..];
  }

  lemma TensorUnique(a: Tensor, b: Tensor, afterA: seq<Token>, afterB: seq<Token>)
    requires TensorTokens(a) + afterA == TensorTokens(b) + afterB
    ensures a == b && afterA == afterB
  {
    RecordHead(a, afterA);
    RecordHead(b, afterB);
    var body := Counts(a.shape) + (Values(a.data) + afterA);
    assert body == (TensorTokens(a) + afterA)[3..] == Counts(b.shape) + (Values(b.data) + afterB);
    SameSplit(body, a.shape, Values(a.data) + afterA, b.shape, Values(b.data) + afterB);
    SameValueSplit(Values(a.data) + afterA, a.data, afterA, b.data, afterB);
  }

  /** A token list starts with at most one list of n tensor records. */
  lemma {:induction false} TensorsUnique(a: seq<Tensor>, b: seq<Tensor>, afterA: seq<Token>, afterB: seq<Token>)
    requires |a| == |b| && TensorsTokens(a) + afterA == TensorsTokens(b) + afterB
    ensures a == b && afterA == afterB
  {
    hide TensorTokens;
    if a != [] {
      var n := |a| - 1;
      Associate(TensorsTokens(a[..n]), TensorTokens(a[n]), afterA);
      Associate(TensorsTokens(b[..n]), TensorTokens(b[n]), afterB);
      TensorsUnique(a[..n], b[..n], TensorTokens(a[n]) + afterA, TensorTokens(b[n]) + afterB);
      TensorUnique(a[n], b[n], afterA, afterB);
      assert a == a[..n] + [a[n]] && b == b[..n] + [b[n]];
    } else {
      assert [] + afterA == afterA && [] + afterB == afterB;
    }
  }

  lemma {:induction false} TensorsSplit(ts: seq<Tensor>, i: nat)
    requires i <= |ts|
    ensures TensorsTokens(ts) == TensorsTokens(ts[..i]) + TensorsTokens(ts[i..])
  {
    hide TensorTokens;
    if i == |ts| {
      assert ts[..i] == ts && ts[i..] == [];
    } else {
      var n := |ts| - 1;
      TensorsSplit(ts[..n], i);
      assert ts[..n][..i] == ts[..i] && ts[..n][i..] == ts[i..][..n - i] && ts[i..][n - i] == ts[n];
      Associate(TensorsTokens(ts[..i]), TensorsTokens(ts[..n][i..]), TensorTokens(ts[n]));
    }
  }

  lemma TensorsOne(t: Tensor)
    ensures TensorsTokens([t]) == TensorTokens(t)
  {
    assert [t][..0] == [];
  }

  // ---------- what a file describes ----------

  datatype Record = Record(from: nat, to: nat, gradient: Tensor)

  ghost function RecordTokens(e: Record): (ts: seq<Token>) {
    [Word("edge"), Count(e.from), Count(e.to)] + TensorTokens(e.gradient)
  }

  ghost function RecordsTokens(es: seq<Record>): seq<Token> {
    if es == [] then [] else RecordsTokens(es[..|es| - 1]) + RecordTokens(es[|es| - 1])
  }

  ghost function EdgeSection(es: seq<Record>): (ts: seq<Token>) {
    [Word("edges"), Count(|es|)] + RecordsTokens(es)
  }

  ghost function FileTokens(ts: seq<Tensor>, es: seq<Record>): (input: seq<Token>) {
    [Word(GRAPH_FORMAT), Word("nodes"), Count(|ts|)] + (TensorsTokens(ts) + EdgeSection(es))
  }

  ghost predicate InFile(e: Record, count: nat) {
    e.from < count && e.to < count && e.gradient.WellFormed()
  }

  ghost predicate Fits(e: Record, ts: seq<Tensor>) {
    InFile(e, |ts|) && Broadcastable(e.gradient, |ts[e.from].data|)
  }

  ghost predicate AllFit(es: seq<Record>, ts: seq<Tensor>) {
    forall i :: 0 <= i < |es| ==> Fits(es[i], ts)
  }

  /** The input is a readable file with these node and edge records, then more tokens. */
  ghost predicate Describes(input: seq<Token>, ts: seq<Tensor>, es: seq<Record>, rest: seq<Token>) {
    AllWellFormed(ts) && AllFit(es, ts) && input == FileTokens(ts, es) + rest
  }

  /** Node records without repetitions, in the order of their first occurrence. */
  ghost function NodesOf(ts: seq<Tensor>): (nodes: seq<Tensor>)
    ensures forall t :: t in nodes <==> t in ts
  {
    if ts == [] then []
    else
      var n := |ts| - 1;
      assert ts == ts[..n] + [ts[n]];
      Ensured(NodesOf(ts[..n]), ts[n])
  }

  /** The graph that a readable file stands for. */
  ghost function Rebuilt(ts: seq<Tensor>, es: seq<Record>): State
    requires forall i :: 0 <= i < |es| ==> InFile(es[i], |ts|)
  {
    State(NodesOf(ts),
          seq(|es|, i requires 0 <= i < |es| && InFile(es[i], |ts|) => (ts[es[i].from], ts[es[i].to])),
          seq(|es|, i requires 0 <= i < |es| => es[i].gradient))
  }

  lemma RecordUnique(a: Record, b: Record, afterA: seq<Token>, afterB: seq<Token>)
    requires RecordTokens(a) + afterA == RecordTokens(b) + afterB
    ensures a == b && afterA == afterB
  {
    var ta, tb := RecordTokens(a) + afterA, RecordTokens(b) + afterB;
    assert ta[1] == Count(a.from) && ta[2] == Count(a.to) && ta[3..] == TensorTokens(a.gradient) + afterA;
    assert tb[1] == Count(b.from) && tb[2] == Count(b.to) && tb[3..] == TensorTokens(b.gradient) + afterB;
    TensorUnique(a.gradient, b.gradient, afterA, afterB);
  }

  lemma {:induction false} RecordsUnique(a: seq<Record>, b: seq<Record>, afterA: seq<Token>, afterB: seq<Token>)
    requires |a| == |b| && RecordsTokens(a) + afterA == RecordsTokens(b) + afterB
    ensures a == b && afterA == afterB
  {
    hide RecordTokens;
    if a != [] {
      var n := |a| - 1;
      Associate(RecordsTokens(a[..n]), RecordTokens(a[n]), afterA);
      Associate(RecordsTokens(b[..n]), RecordTokens(b[n]), afterB);
      RecordsUnique(a[..n], b[..n], RecordTokens(a[n]) + afterA, RecordTokens(b[n]) + afterB);
      RecordUnique(a[n], b[n], afterA, afterB);
      assert a == a[..n] + [a[n]] && b == b[..n] + [b[n]];
    } else {
      assert [] + afterA == afterA && [] + afterB == afterB;
    }
  }

  lemma {:induction false} RecordsSplit(es: seq<Record>, i: nat)
    requires i <= |es|
    ensures RecordsTokens(es) == RecordsTokens(es[..i]) + RecordsTokens(es[i..])
  {
    hide RecordTokens;
    if i == |es| {
      assert es[..i] == es && es[i..] == [];
    } else {
      var n := |es| - 1;
      RecordsSplit(es[..n], i);
      assert es[..n][..i] == es[..i] && es[..n][i..] == es[i..][..n - i] && es[i..][n - i] == es[n];
      Associate(RecordsTokens(es[..i]), RecordsTokens(es[..n][i..]), RecordTokens(es[n]));
    }
  }

  lemma RecordsOne(e: Record)
    ensures RecordsTokens([e]) == RecordTokens(e)
  {
    assert [e][..0] == [];
  }

  lemma FileUnique(ts: seq<Tensor>, es: seq<Record>, rest: seq<Token>,
      ts': seq<Tensor>, es': seq<Record>, rest': seq<Token>)
    requires FileTokens(ts, es) + rest == FileTokens(ts', es') + rest'
    ensures ts == ts' && es == es' && rest == rest'
  {
    hide TensorsTokens, RecordsTokens;
    FileHead(ts, es, rest);
    FileHead(ts', es', rest');
    TensorsUnique(ts, ts', EdgeSection(es) + rest, EdgeSection(es') + rest');
    SectionHead(es, rest);
    SectionHead(es', rest');
    RecordsUnique(es, es', rest, rest');
  }

  /** A file describes one list of nodes and one list of edges. */
  lemma DescriptionUnique(input: seq<Token>, ts: seq<Tensor>, es: seq<Record>, rest: seq<Token>,
      ts': seq<Tensor>, es': seq<Record>, rest': seq<Token>)
    requires Describes(input, ts, es, rest) && Describes(input, ts', es', rest')
    ensures ts == ts' && es == es' && rest == rest'
  {
    hide FileTokens, Fits;
    FileUnique(ts, es, rest, ts', es', rest');
  }

  lemma FileHead(ts: seq<Tensor>, es: seq<Record>, rest: seq<Token>)
    ensures var input := FileTokens(ts, es) + rest;
            && |input| >= 3 && input[0] == Word(GRAPH_FORMAT) && input[1] == Word("nodes") && input[2] == Count(|ts|)
            && input[3..] == TensorsTokens(ts) + (EdgeSection(es) + rest)
  {
    hide TensorsTokens, EdgeSection;
  }

  lemma SectionHead(es: seq<Record>, rest: seq<Token>)
    ensures var input := EdgeSection(es) + rest;
            && |input| >= 2 && input[0] == Word("edges") && input[1] == Count(|es|)
            && input[2..] == RecordsTokens(es) + rest
  {
    hide RecordsTokens;
  }

  // ---------- loading ----------

  /** No list of n well-formed records begins the input once the next one cannot be read. */
  lemma NoNode(input: seq<Token>, n: nat, nodes: seq<Tensor>, rest: seq<Token>)
    requires input == TensorsTokens(nodes) + rest && |nodes| < n
    requires forall t: Tensor, tail: seq<Token> :: t.WellFormed() ==> rest != TensorTokens(t) + tail
    ensures forall ts: seq<Tensor>, tail: seq<Token> :: |ts| == n && AllWellFormed(ts) ==>
              input != TensorsTokens(ts) + tail
  {
    hide TensorTokens, TensorsTokens;
    forall ts: seq<Tensor>, tail: seq<Token> | |ts| == n && AllWellFormed(ts)
      ensures input != TensorsTokens(ts) + tail
    {
      if input == TensorsTokens(ts) + tail {
        var i := |nodes|;
        TensorsSplit(ts, i);
        TensorsSplit(ts[i..], 1);
        assert ts[i..][..1] == [ts[i]];
        TensorsOne(ts[i]);
        var later := TensorsTokens(ts[i..][1..]);
        Associate(TensorsTokens(ts[..i]), TensorTokens(ts[i]) + later, tail);
        Associate(TensorTokens(ts[i]), later, tail);
        TensorsUnique(nodes, ts[..i], rest, TensorTokens(ts[i]) + (later + tail));
        assert false;
      }
    }
  }

  /** The node records, each added to the graph as it is read. */
  method ReadNodes(input: seq<Token>, n: nat, graph: ComputationalGraph)
    returns (r: Result<seq<Tensor>>, rest: seq<Token>)
    requires graph.Valid() && graph.Value() == State([], [], [])
    modifies graph
    ensures graph.Valid()
    ensures r.Success? ==> |r.value| == n && AllWellFormed(r.value) && input == TensorsTokens(r.value) + rest
    ensures r.Success? ==> graph.Value() == State(NodesOf(r.value), [], [])
    ensures r.Failure? ==>
              forall ts: seq<Tensor>, tail: seq<Token> :: |ts| == n && AllWellFormed(ts) ==>
                input != TensorsTokens(ts) + tail
  {
    hide TensorTokens, ValidState, Ensured;
    var nodes: seq<Tensor> := [];
    rest := input;
    for i := 0 to n
      invariant graph.Valid() && |nodes| == i && AllWellFormed(nodes)
      invariant input == TensorsTokens(nodes) + rest
      invariant graph.Value() == State(NodesOf(nodes), [], [])
    {
      var t, after := ReadTensor(rest);
      if t.Failure? {
        NoNode(input, n, nodes, rest);
        return Failure(BadGraphFile), after;
      }
      assert (nodes + [t.value])[..i] == nodes;
      Associate(TensorsTokens(nodes), TensorTokens(t.value), after);
      nodes := nodes + [t.value];
      rest := after;
      graph.AddNode(t.value);
    }
    r := Success(nodes);
  }

  /** Reads an edge record exactly when the input starts with one whose indices are in range. */
  method ReadRecord(input: seq<Token>, count: nat) returns (r: Result<Record>, rest: seq<Token>)
    ensures r.Success? ==> InFile(r.value, count) && input == RecordTokens(r.value) + rest
    ensures r.Failure? ==> forall e: Record, tail: seq<Token> :: InFile(e, count) ==> input != RecordTokens(e) + tail
  {
    hide TensorTokens;
    rest := input;
    forall e: Record, tail: seq<Token> | input == RecordTokens(e) + tail
      ensures |input| >= 3 && input[0] == Word("edge") && input[1] == Count(e.from) && input[2] == Count(e.to)
      ensures input[3..] == TensorTokens(e.gradient) + tail
    {
    }
    if |input| < 3 || input[0] != Word("edge") || !input[1].IsCount() || !input[2].IsCount() {
      return Failure(BadGraphFile), rest;
    }
    var from, to := input[1].CountOf(), input[2].CountOf();
    if from >= count || to >= count { return Failure(BadGraphFile), rest; }
    var gradient, after := ReadTensor(input[3..]);
    if gradient.Failure? { return Failure(BadGraphFile), rest; }
    r, rest := Success(Record(from, to, gradient.value)), after;
    assert input == [input[0], input[1], input[2]] + input[3..];
  }

  /** No list of m fitting records begins the input once the next one cannot be read or added. */
  lemma NoEdge(input: seq<Token>, m: nat, nodes: seq<Tensor>, done: seq<Record>, rest: seq<Token>)
    requires input == RecordsTokens(done) + rest && |done| < m
    requires forall e: Record, tail: seq<Token> :: Fits(e, nodes) ==> rest != RecordTokens(e) + tail
    ensures forall es: seq<Record>, tail: seq<Token> :: |es| == m && AllFit(es, nodes) ==>
              input != RecordsTokens(es) + tail
  {
    hide RecordTokens, RecordsTokens, Fits;
    forall es: seq<Record>, tail: seq<Token> | |es| == m && AllFit(es, nodes)
      ensures input != RecordsTokens(es) + tail
    {
      if input == RecordsTokens(es) + tail {
        var i := |done|;
        RecordsSplit(es, i);
        RecordsSplit(es[i..], 1);
        assert es[i..][..1] == [es[i]];
        RecordsOne(es[i]);
        var later := RecordsTokens(es[i..][1..]);
        Associate(RecordsTokens(es[..i]), RecordTokens(es[i]) + later, tail);
        Associate(RecordTokens(es[i]), later, tail);
        RecordsUnique(done, es[..i], rest, RecordTokens(es[i]) + (later + tail));
        assert false;
      }
    }
  }

  /** The record that was read is the only one there; if it does not fit, none does. */
  lemma OnlyRecord(rest: seq<Token>, e: Record, after: seq<Token>, nodes: seq<Tensor>)
    requires rest == RecordTokens(e) + after && !Fits(e, nodes)
    ensures forall f: Record, tail: seq<Token> :: Fits(f, nodes) ==> rest != RecordTokens(f) + tail
  {
    hide RecordTokens, Fits;
    forall f: Record, tail: seq<Token> | Fits(f, nodes) ensures rest != RecordTokens(f) + tail {
      if rest == RecordTokens(f) + tail {
        RecordUnique(e, f, after, tail);
        assert false;
      }
    }
  }

  /** Adding a record of known nodes appends its edge and adds no node. */
  lemma RebuiltSnoc(ts: seq<Tensor>, es: seq<Record>, e: Record)
    requires (forall i :: 0 <= i < |es| ==> InFile(es[i], |ts|)) && InFile(e, |ts|)
    ensures var s := Rebuilt(ts, es); var from, to := ts[e.from], ts[e.to];
            && Ensured(Ensured(s.nodes, from), to) == s.nodes
            && Rebuilt(ts, es + [e]) == State(s.nodes, s.edges + [(from, to)], s.gradients + [e.gradient])
  {
  }

  /** The edge records, each added to the graph as it is read. */
  method ReadEdges(input: seq<Token>, m: nat, nodes: seq<Tensor>, graph: ComputationalGraph)
    returns (r: Result<()>, ghost es: seq<Record>, ghost rest: seq<Token>)
    requires graph.Valid() && AllWellFormed(nodes) && graph.Value() == State(NodesOf(nodes), [], [])
    modifies graph
    ensures graph.Valid()
    ensures r.Success? ==> |es| == m && AllFit(es, nodes) && input == RecordsTokens(es) + rest
    ensures r.Success? ==> graph.Value() == Rebuilt(nodes, es)
    ensures r.Failure? ==>
              forall es: seq<Record>, tail: seq<Token> :: |es| == m && AllFit(es, nodes) ==>
                input != RecordsTokens(es) + tail
  {
    hide RecordTokens, ValidState, Ensured, NodesOf;
    var left := input;
    es := [];
    for i := 0 to m
      invariant graph.Valid() && |es| == i && AllFit(es, nodes)
      invariant input == RecordsTokens(es) + left
      invariant graph.Value() == Rebuilt(nodes, es)
    {
      var record, after := ReadRecord(left, |nodes|);
      if record.Failure? {
        NoEdge(input, m, nodes, es, left);
        return Failure(BadGraphFile), es, left;
      }
      var e := record.value;
      RebuiltSnoc(nodes, es, e);
      var added := graph.AddEdge(nodes[e.from], nodes[e.to], e.gradient);
      if added.Failure? {
        OnlyRecord(left, e, after, nodes);
        NoEdge(input, m, nodes, es, left);
        return Failure(GradientShape), es, left;
      }
      assert (es + [e])[..i] == es;
      Associate(RecordsTokens(es), RecordTokens(e), after);
      es := es + [e];
      left := after;
    }
    r, rest := Success(()), left;
  }

  /** Loads exactly the readable files, as the graph they describe. */
  method LoadGraph(input: seq<Token>)
    returns (r: Result<()>, graph: ComputationalGraph, ghost ts: seq<Tensor>, ghost es: seq<Record>,
      ghost rest: seq<Token>)
    ensures fresh(graph) && graph.Valid()
    ensures r.Success? ==> Describes(input, ts, es, rest) && graph.Value() == Rebuilt(ts, es)
    ensures r.Failure? ==> forall ts, es, rest :: !Describes(input, ts, es, rest)
  {
    hide TensorsTokens, RecordsTokens, ValidState, FileTokens, EdgeSection, NodesOf, Fits;
    graph := new ComputationalGraph();
    ts, es, rest := [], [], [];
    forall us, fs, tail | Describes(input, us, fs, tail)
      ensures |input| >= 3 && input[0] == Word(GRAPH_FORMAT) && input[1] == Word("nodes") && input[2] == Count(|us|)
      ensures input[3..] == TensorsTokens(us) + (EdgeSection(fs) + tail)
    {
      FileHead(us, fs, tail);
    }
    if |input| < 3 || input[0] != Word(GRAPH_FORMAT) || input[1] != Word("nodes") || !input[2].IsCount() {
      return Failure(BadGraphFile), graph, ts, es, rest;
    }
    var nodes, afterNodes := ReadNodes(input[3..], input[2].CountOf(), graph);
    if nodes.Failure? { return Failure(BadGraphFile), graph, ts, es, rest; }
    ts := nodes.value;
    forall us, fs, tail | Describes(input, us, fs, tail)
      ensures us == ts && |afterNodes| >= 2 && afterNodes[0] == Word("edges") && afterNodes[1] == Count(|fs|)
      ensures afterNodes[2..] == RecordsTokens(fs) + tail
    {
      TensorsUnique(ts, us, afterNodes, EdgeSection(fs) + tail);
      SectionHead(fs, tail);
    }
    if |afterNodes| < 2 || afterNodes[0] != Word("edges") || !afterNodes[1].IsCount() {
      return Failure(BadGraphFile), graph, ts, es, rest;
    }
    r, es, rest := ReadEdges(afterNodes[2..], afterNodes[1].CountOf(), nodes.value, graph);
    if r.Success? {
      assert afterNodes == [afterNodes[0], afterNodes[1]] + afterNodes[2..];
      FileOf(input, ts, es, rest, afterNodes);
    }
  }

  lemma FileOf(input: seq<Token>, ts: seq<Tensor>, es: seq<Record>, rest: seq<Token>, afterNodes: seq<Token>)
    requires |input| >= 3 && input[0] == Word(GRAPH_FORMAT) && input[1] == Word("nodes") && input[2] == Count(|ts|)
    requires input[3..] == TensorsTokens(ts) + afterNodes
    requires |afterNodes| >= 2 && afterNodes[0] == Word("edges") && afterNodes[1] == Count(|es|)
    requires afterNodes[2..] == RecordsTokens(es) + rest
    ensures input == FileTokens(ts, es) + rest
  {
    hide TensorsTokens, RecordsTokens;
    assert afterNodes == [afterNodes[0], afterNodes[1]] + afterNodes[2..] == EdgeSection(es) + rest;
    assert input == [input[0], input[1], input[2]] + input[3..];
    Associate(TensorsTokens(ts), EdgeSection(es), rest);
  }

  // ---------- round trip ----------

  ghost function RecordsOf(nodes: seq<Tensor>, edges: seq<EdgeEnds>, gradients: seq<Tensor>): (es: seq<Record>)
    requires |edges| == |gradients|
  {
    seq(|edges|, i requires 0 <= i < |edges| =>
      Record(IndexIn(nodes, edges[i].0), IndexIn(nodes, edges[i].1), gradients[i]))
  }

  lemma {:induction false} EdgesAreRecords(nodes: seq<Tensor>, edges: seq<EdgeEnds>, gradients: seq<Tensor>)
    requires |edges| == |gradients|
    ensures EdgesTokens(nodes, edges, gradients) == RecordsTokens(RecordsOf(nodes, edges, gradients))
  {
    if edges != [] {
      var n := |edges| - 1;
      EdgesAreRecords(nodes, edges[..n], gradients[..n]);
      var es := RecordsOf(nodes, edges, gradients);
      assert es[..n] == RecordsOf(nodes, edges[..n], gradients[..n]);
    }
  }

  /** Distinct node records come back as they are. */
  lemma {:induction false} DistinctNodes(ts: seq<Tensor>)
    requires Distinct(ts)
    ensures NodesOf(ts) == ts
  {
    if ts != [] {
      var n := |ts| - 1;
      DistinctNodes(ts[..n]);
      assert ts[n] !in ts[..n];
      assert ts == ts[..n] + [ts[n]];
    }
  }

  lemma RecordsFit(s: State)
    requires ValidState(s) && Consistent(s)
    ensures forall i :: 0 <= i < |s.edges| ==> Fits(RecordsOf(s.nodes, s.edges, s.gradients)[i], s.nodes)
  {
    hide Numel;
    forall i | 0 <= i < |s.edges| ensures Fits(RecordsOf(s.nodes, s.edges, s.gradients)[i], s.nodes) {
      assert s.gradients[i].WellFormed() && s.edges[i].0 in s.nodes && s.edges[i].1 in s.nodes;
    }
  }

  lemma EdgesBack(nodes: seq<Tensor>, edges: seq<EdgeEnds>, gradients: seq<Tensor>)
    requires |edges| == |gradients|
    requires forall i :: 0 <= i < |edges| ==> edges[i].0 in nodes && edges[i].1 in nodes
    requires forall i :: 0 <= i < |edges| ==> InFile(RecordsOf(nodes, edges, gradients)[i], |nodes|)
    ensures var s := Rebuilt(nodes, RecordsOf(nodes, edges, gradients)); s.edges == edges && s.gradients == gradients
  {
    hide InFile, NodesOf;
    var es := RecordsOf(nodes, edges, gradients);
    var s := Rebuilt(nodes, es);
    forall i | 0 <= i < |edges| ensures s.edges[i] == edges[i] {
      assert s.edges[i] == (nodes[es[i].from], nodes[es[i].to]);
      assert edges[i] == (edges[i].0, edges[i].1);
    }
  }

  lemma RecordsRebuild(s: State)
    requires ValidState(s) && Consistent(s)
    ensures var es := RecordsOf(s.nodes, s.edges, s.gradients);
            (forall i :: 0 <= i < |es| ==> InFile(es[i], |s.nodes|)) && Rebuilt(s.nodes, es) == s
  {
    var es := RecordsOf(s.nodes, s.edges, s.gradients);
    RecordsFit(s);
    DistinctNodes(s.nodes);
    forall i | 0 <= i < |es| ensures InFile(es[i], |s.nodes|) {
      assert Fits(es[i], s.nodes);
    }
    hide Fits, InFile, RecordsOf, AllWellFormed, Distinct, NodesOf, Broadcastable;
    EdgesBack(s.nodes, s.edges, s.gradients);
  }

  lemma SavedIsFile(s: State)
    requires ValidState(s)
    ensures EdgesFit(s)
    ensures GraphTokens(s) == FileTokens(s.nodes, RecordsOf(s.nodes, s.edges, s.gradients)) + []
  {
    EdgesAreRecords(s.nodes, s.edges, s.gradients);
    hide TensorsTokens, RecordsTokens, EdgesTokens, EdgesFit, AllWellFormed, Distinct;
  }

  /** The tokens of a consistent graph describe that graph. */
  lemma SavedDescribes(s: State)
    requires ValidState(s) && Consistent(s)
    ensures var es := RecordsOf(s.nodes, s.edges, s.gradients);
            Describes(GraphTokens(s), s.nodes, es, []) && Rebuilt(s.nodes, es) == s
  {
    RecordsFit(s);
    RecordsRebuild(s);
    SavedIsFile(s);
    hide RecordsOf, FileTokens, GraphTokens, Rebuilt, Fits, InFile;
  }

  /** A saved graph can be read exactly when every tensor still has the shape of its data. */
  lemma ReadableIffConsistent(s: State)
    requires ValidState(s)
    ensures (exists ts, es, rest :: Describes(GraphTokens(s), ts, es, rest)) <==> Consistent(s)
  {
    hide FileTokens, GraphTokens;
    if Consistent(s) {
      SavedDescribes(s);
    }
    if ts, es, rest :| Describes(GraphTokens(s), ts, es, rest) {
      SavedIsFile(s);
      var saved := RecordsOf(s.nodes, s.edges, s.gradients);
      FileUnique(s.nodes, saved, [], ts, es, rest);
      forall i | 0 <= i < |s.gradients| ensures s.gradients[i].WellFormed() {
        assert Fits(saved[i], s.nodes);
      }
    }
  }

  /** A tensor resized after its construction is saved and cannot be loaded. */
  lemma ResizedTensor()
    ensures var s := State([Tensor([1], [1.0, 2.0])], [], []);
            ValidState(s) && forall ts, es, rest :: !Describes(GraphTokens(s), ts, es, rest)
  {
    var t := Tensor([1], [1.0, 2.0]);
    var s := State([t], [], []);
    assert t.shape[..0] == [];
    assert !t.WellFormed();
    ReadableIffConsistent(s);
  }

  /** Save, then load: the same graph, exactly when its tensors are consistent. */
  method RoundTrip(graph: ComputationalGraph) returns (r: Result<()>, copy: ComputationalGraph)
    requires graph.Valid()
    ensures fresh(copy) && copy.Valid()
    ensures r.Success? <==> Consistent(graph.Value())
    ensures r.Success? ==> copy.Value() == graph.Value()
  {
    hide Consistent, Describes, Rebuilt, GraphTokens;
    var saved := SaveGraph(graph);
    ghost var s := graph.Value();
    ghost var ts, es, rest;
    r, copy, ts, es, rest := LoadGraph(saved.value);
    ReadableIffConsistent(s);
    if Consistent(s) {
      SavedDescribes(s);
      DescriptionUnique(saved.value, s.nodes, RecordsOf(s.nodes, s.edges, s.gradients), [], ts, es, rest);
    }
  }
}
