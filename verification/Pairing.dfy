/** The pivots of a matrix, said without any algorithm. */
module Pairing {
  // Every left-to-right reduction finds exactly these pivots.

  import opened Z2

  /** v can be obtained from column j by adding columns to the left of it. */
  ghost predicate InCoset(d: seq<Col>, j: nat, v: Col)
    requires j < |d|
  {
    exists comb: set<nat> :: v == Xor(d[j], Comb(d[..j], comb))
  }

  /** The pivot of column j: the least lowest row that left-to-right additions can give it. */
  ghost predicate IsPivot(d: seq<Col>, j: nat, p: int)
    requires j < |d|
  {
    && (exists v :: InCoset(d, j, v) && Low(v) == p)
    && (forall v :: InCoset(d, j, v) ==> p <= Low(v))
  }

  ghost predicate PivotVector(d: seq<Col>, pivots: seq<int>) {
    && |pivots| == |d|
    && forall j :: 0 <= j < |d| ==> IsPivot(d, j, pivots[j])
  }

  ghost predicate DistinctLows(r: seq<Col>) {
    forall i, j :: 0 <= i < j < |r| && r[i] != {} ==> Low(r[i]) != Low(r[j])
  }

  /** r holds the first columns of d after left-to-right additions. */
  ghost predicate Additions(d: seq<Col>, r: seq<Col>) {
    |r| <= |d| && forall j :: 0 <= j < |r| ==> InCoset(d, j, r[j])
  }

  ghost predicate IsReduction(d: seq<Col>, r: seq<Col>) {
    |r| == |d| && Additions(d, r) && DistinctLows(r)
  }

  ghost function Lows(r: seq<Col>): (p: seq<int>) {
    seq(|r|, j requires 0 <= j < |r| => Low(r[j]))
  }

  /** Descending from any member of the coset reaches its least lowest row. */
  lemma {:induction false} LeastLow(d: seq<Col>, j: nat, v: Col)
    requires j < |d| && InCoset(d, j, v)
    ensures exists p :: IsPivot(d, j, p)
    decreases Low(v) + 1
  {
    if w :| InCoset(d, j, w) && Low(w) < Low(v) {
      LeastLow(d, j, w);
    } else {
      assert IsPivot(d, j, Low(v));
    }
  }

  /** The pivots of a matrix. */
  ghost function Pivots(d: seq<Col>): (p: seq<int>)
    ensures |p| == |d| && PivotVector(d, p)
  {
    seq(|d|, j requires 0 <= j < |d| => PivotOf(d, j))
  }

  ghost function PivotOf(d: seq<Col>, j: nat): (p: int)
    requires j < |d|
    ensures IsPivot(d, j, p)
  {
    CosetRefl(d, j);
    LeastLow(d, j, d[j]);
    var p :| IsPivot(d, j, p);
    p
  }

  /** A pivot vector is determined by the matrix, so all algorithms that compute one agree. */
  lemma PivotVectorUnique(d: seq<Col>, p: seq<int>, q: seq<int>)
    requires PivotVector(d, p) && PivotVector(d, q)
    ensures p == q
  {
    forall j | 0 <= j < |d| ensures p[j] == q[j] {
      assert IsPivot(d, j, p[j]) && IsPivot(d, j, q[j]);
    }
  }

  /** Adding any combination of earlier columns stays in the coset. */
  lemma CosetShift(d: seq<Col>, j: nat, v: Col, comb: set<nat>)
    requires j < |d| && InCoset(d, j, v)
    ensures InCoset(d, j, Xor(v, Comb(d[..j], comb)))
  {
    var c :| v == Xor(d[j], Comb(d[..j], c));
    CombLinear(d[..j], c, comb);
    assert Xor(v, Comb(d[..j], comb)) == Xor(d[j], Comb(d[..j], Xor(c, comb)));
  }

  /** A column obtained from column k by earlier additions is a combination of the first j columns. */
  lemma CosetAsComb(d: seq<Col>, k: nat, j: nat, v: Col) returns (comb: set<nat>)
    requires k < j <= |d| && InCoset(d, k, v)
    ensures Comb(d[..j], comb) == v
    ensures k in comb && forall c :: c in comb ==> c <= k
  {
    var c :| v == Xor(d[k], Comb(d[..k], c));
    var below := set x | x in c && x < k;
    CombRestrict(d[..k], c, below);
    comb := Xor({k}, below);
    CombLinear(d[..j], {k}, below);
    CombOne(d[..j], k);
    CombPrefix(d[..j], k, below);
    assert d[..j][..k] == d[..k];
  }

  /** Adding an earlier column, reduced or not, stays in the coset. */
  lemma CosetAdd(d: seq<Col>, j: nat, v: Col, k: nat, w: Col)
    requires k < j < |d| && InCoset(d, j, v) && InCoset(d, k, w)
    ensures InCoset(d, j, Xor(v, w))
  {
    var comb := CosetAsComb(d, k, j, w);
    CosetShift(d, j, v, comb);
  }

  lemma CosetRefl(d: seq<Col>, j: nat)
    requires j < |d|
    ensures InCoset(d, j, d[j])
  {
    CombNone(d[..j], {});
    assert d[j] == Xor(d[j], Comb(d[..j], {}));
  }

  /** The lowest row of a combination of columns with distinct lowest rows is one of theirs. */
  lemma {:induction false} LowOfComb(r: seq<Col>, comb: set<nat>)
    requires DistinctLows(r)
    ensures Low(Comb(r, comb)) >= 0 ==> exists i :: 0 <= i < |r| && Low(r[i]) == Low(Comb(r, comb))
  {
    if r != [] {
      var last := |r| - 1;
      var rest := r[..last];
      assert DistinctLows(rest);
      LowOfComb(rest, comb);
      var w := Comb(rest, comb);
      if last in comb {
        LowOfXor(w, r[last]);
        if Low(w) >= 0 {
          var i :| 0 <= i < |rest| && Low(rest[i]) == Low(w);
          assert rest[i] == r[i];
          assert r[i] != {};
        } else {
          assert Xor(w, r[last]) == r[last];
        }
      } else {
        assert Xor(w, {}) == w;
        if Low(w) >= 0 {
          var i :| 0 <= i < |rest| && Low(rest[i]) == Low(w);
          assert rest[i] == r[i];
        }
      }
    }
  }

  /** Combinations of the first j columns of d are combinations of the first j columns of r. */
  lemma {:induction false} SpanTransfer(d: seq<Col>, r: seq<Col>, j: nat, comb: set<nat>) returns (out: set<nat>)
    requires Additions(d, r) && j <= |r|
    ensures Comb(r[..j], out) == Comb(d[..j], comb)
    ensures forall c :: c in out ==> c < j
    decreases j
  {
    if j == 0 {
      out := {};
    } else {
      var k := j - 1;
      assert d[..j][..k] == d[..k] && r[..j][..k] == r[..k];
      if k in comb {
        assert InCoset(d, k, r[k]);
        var c :| r[k] == Xor(d[k], Comb(d[..k], c));
        CombLinear(d[..k], comb, c);
        var below := SpanTransfer(d, r, k, Xor(comb, c));
        out := Xor({k}, below);
        CombRestrict(r[..k], out, below);
        assert Comb(d[..j], comb) == Xor(Comb(d[..k], comb), d[k]);
        assert Comb(r[..j], out) == Xor(Comb(r[..k], below), r[k]);
      } else {
        out := SpanTransfer(d, r, k, comb);
        assert k !in out;
      }
    }
  }

  lemma DistinctPrefix(r: seq<Col>, j: nat)
    requires j <= |r| && DistinctLows(r)
    ensures DistinctLows(r[..j])
  {
  }

  /** The difference of two members of a coset is a combination of the reduced columns before it. */
  lemma CosetDifference(d: seq<Col>, r: seq<Col>, j: nat, v: Col) returns (comb: set<nat>)
    requires Additions(d, r) && j < |r| && InCoset(d, j, v)
    ensures v == Xor(r[j], Comb(r[..j], comb))
  {
    assert InCoset(d, j, r[j]);
    var a :| v == Xor(d[j], Comb(d[..j], a));
    var b :| r[j] == Xor(d[j], Comb(d[..j], b));
    CombLinear(d[..j], a, b);
    comb := SpanTransfer(d, r, j, Xor(a, b));
  }

  /** In a reduction every column has the least lowest row its coset allows. */
  lemma ReducedIsMinimal(d: seq<Col>, r: seq<Col>, j: nat)
    requires Additions(d, r) && j < |r| && DistinctLows(r)
    ensures IsPivot(d, j, Low(r[j]))
  {
    assert InCoset(d, j, r[j]);
    forall v | InCoset(d, j, v) ensures Low(r[j]) <= Low(v) {
      var comb := CosetDifference(d, r, j, v);
      var w := Comb(r[..j], comb);
      DistinctPrefix(r, j);
      LowOfComb(r[..j], comb);
      LowOfXor(r[j], w);
      if Low(w) >= 0 {
        var i :| 0 <= i < |r[..j]| && Low(r[..j][i]) == Low(w);
        assert r[..j][i] == r[i] && r[i] != {};
      }
    }
  }

  /** A matrix obtained by left-to-right additions has distinct lowest rows exactly when every
      column is as low as it can get; in particular its pivots do not depend on the additions. */
  lemma ReducedIffMinimal(d: seq<Col>, r: seq<Col>)
    requires |r| == |d| && Additions(d, r)
    ensures DistinctLows(r) <==> PivotVector(d, Lows(r))
  {
    if DistinctLows(r) {
      forall j | 0 <= j < |d| ensures IsPivot(d, j, Low(r[j])) {
        ReducedIsMinimal(d, r, j);
      }
    }
    if PivotVector(d, Lows(r)) {
      forall i, j | 0 <= i < j < |r| && r[i] != {} ensures Low(r[i]) != Low(r[j]) {
        CosetAdd(d, j, r[j], i, r[i]);
        LowOfXor(r[j], r[i]);
        assert IsPivot(d, j, Lows(r)[j]);
      }
    }
  }

  /** Pairing uniqueness: two reductions of one matrix have the same lowest rows. */
  lemma PairingUnique(d: seq<Col>, r: seq<Col>, s: seq<Col>)
    requires IsReduction(d, r) && IsReduction(d, s)
    ensures Lows(r) == Lows(s)
  {
    ReducedIffMinimal(d, r);
    ReducedIffMinimal(d, s);
    PivotVectorUnique(d, Lows(r), Lows(s));
  }

  /** Nonnegative pivots are pairwise distinct: each row kills at most one column. */
  lemma PivotsInjective(d: seq<Col>, pivots: seq<int>, i: nat, j: nat)
    requires PivotVector(d, pivots) && i < j < |d| && pivots[i] >= 0
    ensures pivots[i] != pivots[j]
  {
    assert IsPivot(d, i, pivots[i]) && IsPivot(d, j, pivots[j]);
    var v :| InCoset(d, i, v) && Low(v) == pivots[i];
    var w :| InCoset(d, j, w) && Low(w) == pivots[j];
    CosetAdd(d, j, w, i, v);
    LowOfXor(w, v);
  }
}
