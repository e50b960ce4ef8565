/** Why the lazy reductions terminate. */
module LazyTermination {
  // They add ORIGINAL pivot columns, so the lowest row of the working column may go up again.  What
  // does go down is the set of reduced pivot columns the working column is made of, read as a binary
  // number with later columns more significant.

  import opened Z2
  import opened Pairing

  /** Column k holds the pivot of row p, or k is -1 when no column does. */
  ghost function PivotColumn(r: seq<Col>, p: nat): (k: int)
    ensures k == -1 ==> forall i :: 0 <= i < |r| ==> Low(r[i]) != p
    ensures k != -1 ==> 0 <= k < |r| && Low(r[k]) == p
  {
    if exists i :: 0 <= i < |r| && Low(r[i]) == p then
      var i :| 0 <= i < |r| && Low(r[i]) == p; i
    else -1
  }

  /** The reduced columns met when s is cleared at every pivot row below h, from the top down. */
  ghost function Coeffs(s: Col, r: seq<Col>, h: nat): set<nat>
    decreases h
  {
    if h == 0 then {}
    else
      var k := PivotColumn(r, h - 1);
      if h - 1 in s && k >= 0 then Xor({k}, Coeffs(Xor(s, r[k]), r, h - 1))
      else Coeffs(s, r, h - 1)
  }

  /** The binary number whose digits below n are given by the set. */
  ghost function Binary(a: set<nat>, n: nat): nat {
    if n == 0 then 0
    else Binary(a, n - 1) + if n - 1 in a then Pow2(n - 1) else 0
  }

  ghost function Pow2(n: nat): nat {
    if n == 0 then 1 else 2 * Pow2(n - 1)
  }

  lemma {:induction false} BinaryBound(a: set<nat>, n: nat)
    ensures Binary(a, n) < Pow2(n)
  {
    if n > 0 { BinaryBound(a, n - 1); }
  }

  /** Dropping a digit pays for any change to the less significant ones. */
  lemma {:induction false} BinaryDrops(a: set<nat>, b: set<nat>, k: nat, n: nat)
    requires k < n && k in a && k !in b
    requires forall i :: k < i < n ==> (i in a <==> i in b)
    ensures Binary(b, n) < Binary(a, n)
  {
    if k == n - 1 {
      BinaryBound(b, k);
    } else {
      BinaryDrops(a, b, k, n - 1);
    }
  }

  lemma {:induction false} CoeffsEmpty(r: seq<Col>, h: nat)
    ensures Coeffs({}, r, h) == {}
  {
    if h > 0 { CoeffsEmpty(r, h - 1); }
  }

  /** The column and the digit after clearing row p. */
  ghost function Cleared(s: Col, r: seq<Col>, p: nat): (t: Col) {
    var k := PivotColumn(r, p);
    if p in s && k >= 0 then Xor(s, r[k]) else s
  }

  ghost function Digit(s: Col, r: seq<Col>, p: nat): (a: set<nat>) {
    var k := PivotColumn(r, p);
    if p in s && k >= 0 then {k} else {}
  }

  lemma CoeffsStep(s: Col, r: seq<Col>, h: nat)
    requires h > 0
    ensures Coeffs(s, r, h) == Xor(Digit(s, r, h - 1), Coeffs(Cleared(s, r, h - 1), r, h - 1))
  {
  }

  lemma StepLinear(s: Col, t: Col, r: seq<Col>, p: nat)
    ensures Digit(Xor(s, t), r, p) == Xor(Digit(s, r, p), Digit(t, r, p))
    ensures Cleared(Xor(s, t), r, p) == Xor(Cleared(s, r, p), Cleared(t, r, p))
  {
  }

  lemma XorPairs(a: set<nat>, b: set<nat>, c: set<nat>, d: set<nat>)
    ensures Xor(Xor(a, b), Xor(c, d)) == Xor(Xor(a, c), Xor(b, d))
  {
  }

  /** Clearing is linear. */
  lemma {:induction false} CoeffsLinear(s: Col, t: Col, r: seq<Col>, h: nat)
    ensures Coeffs(Xor(s, t), r, h) == Xor(Coeffs(s, r, h), Coeffs(t, r, h))
    decreases h
  {
    if h > 0 {
      hide Coeffs, Cleared, Digit, Xor;
      var s', t' := Cleared(s, r, h - 1), Cleared(t, r, h - 1);
      CoeffsStep(s, r, h);
      CoeffsStep(t, r, h);
      CoeffsStep(Xor(s, t), r, h);
      StepLinear(s, t, r, h - 1);
      CoeffsLinear(s', t', r, h - 1);
      XorPairs(Digit(s, r, h - 1), Digit(t, r, h - 1), Coeffs(s', r, h - 1), Coeffs(t', r, h - 1));
    }
  }

  /** Only columns whose pivot row lies below h take part. */
  lemma {:induction false} CoeffsBelow(s: Col, r: seq<Col>, h: nat)
    ensures forall i :: i in Coeffs(s, r, h) ==> i < |r| && 0 <= Low(r[i]) < h
    decreases h
  {
    if h > 0 {
      var k := PivotColumn(r, h - 1);
      if h - 1 in s && k >= 0 {
        CoeffsBelow(Xor(s, r[k]), r, h - 1);
      } else {
        CoeffsBelow(s, r, h - 1);
      }
    }
  }

  /** A working column whose lowest row is the pivot of column k contains R_k. */
  lemma {:induction false} CoeffsTop(s: Col, r: seq<Col>, k: nat, h: nat)
    requires DistinctLows(r) && k < |r| && s != {}
    requires Low(s) == Low(r[k]) < h
    ensures k in Coeffs(s, r, h)
  {
    if h - 1 == Low(s) {
      assert PivotColumn(r, h - 1) == k;
      CoeffsBelow(Xor(s, r[k]), r, h - 1);
    } else {
      CoeffsTop(s, r, k, h - 1);
    }
  }

  /** A reduced column is made of itself alone. */
  lemma {:induction false} CoeffsOfReduced(r: seq<Col>, k: nat, h: nat)
    requires DistinctLows(r) && k < |r| && Low(r[k]) < h
    ensures Coeffs(r[k], r, h) == if r[k] == {} then {} else {k}
  {
    if r[k] == {} {
      CoeffsEmpty(r, h);
    } else if h - 1 == Low(r[k]) {
      assert PivotColumn(r, h - 1) == k;
      assert Xor(r[k], r[k]) == {};
      CoeffsEmpty(r, h - 1);
      assert Xor({k}, {}) == {k};
    } else {
      CoeffsOfReduced(r, k, h - 1);
    }
  }

  /** An original column is its reduced column plus reduced columns to the left of it. */
  lemma {:induction false} CoeffsOfOriginal(d: seq<Col>, r: seq<Col>, i: nat, m: nat)
    requires Additions(d, r) && DistinctLows(r) && i < |r|
    requires forall j, x :: 0 <= j < |d| && x in d[j] ==> x < m
    ensures forall c :: c in Coeffs(d[i], r, m) ==> c <= i
    ensures r[i] != {} ==> i in Coeffs(d[i], r, m)
    decreases i, 1
  {
    assert InCoset(d, i, r[i]);
    var comb :| r[i] == Xor(d[i], Comb(d[..i], comb));
    var w := Comb(d[..i], comb);
    CombBounded(d[..i], comb, m);
    CoeffsOfComb(d, r, i, comb, m);
    CoeffsOfReduced(r, i, m);
    CoeffsLinear(r[i], w, r, m);
    assert d[i] == Xor(r[i], w);
  }

  lemma {:induction false} CoeffsOfComb(d: seq<Col>, r: seq<Col>, j: nat, comb: set<nat>, m: nat)
    requires Additions(d, r) && DistinctLows(r) && j <= |r|
    requires forall j, x :: 0 <= j < |d| && x in d[j] ==> x < m
    ensures forall c :: c in Coeffs(Comb(d[..j], comb), r, m) ==> c < j
    decreases j, 0
  {
    if j == 0 {
      CoeffsEmpty(r, m);
    } else {
      var w := Comb(d[..j - 1], comb);
      assert d[..j][..j - 1] == d[..j - 1];
      CoeffsOfComb(d, r, j - 1, comb, m);
      if j - 1 in comb {
        CoeffsOfOriginal(d, r, j - 1, m);
        CoeffsLinear(w, d[j - 1], r, m);
      } else {
        assert Xor(w, {}) == w;
      }
    }
  }

  /** The number that bounds the remaining additions to the working column s. */
  ghost function Remaining(s: Col, r: seq<Col>, m: nat): nat {
    Binary(Coeffs(s, r, m), |r|)
  }

  /** Adding the original column k, whose reduced form has the working column's lowest row,
      makes the number smaller, although the new lowest row may be larger than the old one. */
  lemma LazyStepDecreases(d: seq<Col>, r: seq<Col>, s: Col, k: nat, m: nat)
    requires Additions(d, r) && DistinctLows(r) && k < |r| && s != {} && Low(s) == Low(r[k]) < m
    requires forall j, x :: 0 <= j < |d| && x in d[j] ==> x < m
    ensures Remaining(Xor(s, d[k]), r, m) < Remaining(s, r, m)
  {
    CoeffsTop(s, r, k, m);
    CoeffsOfOriginal(d, r, k, m);
    CoeffsLinear(s, d[k], r, m);
    BinaryDrops(Coeffs(s, r, m), Coeffs(Xor(s, d[k]), r, m), k, |r|);
  }

  /** The lowest row of the working column really can rise: row 1 is the pivot of column 1, and
      adding the original column 1 moves the lowest row from 1 to 2. */
  lemma LowestRowCanRise()
    ensures var d := [{0, 2}, {1, 2}]; var r := [{0, 2}, {0, 1}];
            && IsReduction(d, r)
            && Low({1}) == Low(r[1]) == 1 && Low(Xor({1}, d[1])) == 2
  {
    var d: seq<Col> := [{0, 2}, {1, 2}];
    CosetRefl(d, 0);
    CosetRefl(d, 1);
    CosetAdd(d, 1, d[1], 0, d[0]);
    assert Xor(d[1], d[0]) == {0, 1};
    assert Xor({1}, d[1]) == {2};
  }
}
