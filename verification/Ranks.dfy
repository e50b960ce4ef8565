/** The pairing in terms of ranks. */
module Ranks {
  // How many of the first columns pair with a row from i on is the rank of those columns cut off
  // above row i, so the pairing depends on nothing but ranks of parts of the matrix.

  import opened Z2
  import opened Pairing
  import LazyTermination

  // ---------- span and rank ----------

  ghost function Shifted(s: set<Col>, x: Col): (t: set<Col>) {
    set v | v in s :: Xor(v, x)
  }

  /** All sums of columns. */
  ghost function Span(d: seq<Col>): (s: set<Col>) {
    if d == [] then {{}}
    else
      var s := Span(d[..|d| - 1]);
      s + Shifted(s, d[|d| - 1])
  }

  lemma {:induction false} SumInSpan(d: seq<Col>, comb: set<nat>)
    ensures Comb(d, comb) in Span(d)
  {
    if d != [] {
      var last := |d| - 1;
      var w := Comb(d[..last], comb);
      SumInSpan(d[..last], comb);
      assert w in Span(d[..last]) && Xor(w, d[last]) in Shifted(Span(d[..last]), d[last]);
      assert Xor(w, {}) == w;
    }
  }

  lemma {:induction false} SpanIsSum(d: seq<Col>, v: Col) returns (comb: set<nat>)
    requires v in Span(d)
    ensures v == Comb(d, comb)
  {
    comb := {};
    if d != [] {
      var last := |d| - 1;
      var rest := d[..last];
      if v in Span(rest) {
        var c := SpanIsSum(rest, v);
        comb := c - {last};
        CombRestrict(rest, c, comb);
      } else {
        var w :| w in Span(rest) && v == Xor(w, d[last]);
        var c := SpanIsSum(rest, w);
        comb := c + {last};
        CombRestrict(rest, c, comb);
      }
    }
  }

  /** The span holds exactly the sums of columns, so it does not depend on their order. */
  lemma SpanMember(d: seq<Col>, v: Col)
    ensures v in Span(d) <==> exists comb: set<nat> :: v == Comb(d, comb)
  {
    if v in Span(d) {
      var comb := SpanIsSum(d, v);
    }
    if comb: set<nat> :| v == Comb(d, comb) {
      SumInSpan(d, comb);
    }
  }

  lemma {:induction false} ShiftedSize(s: set<Col>, x: Col)
    ensures |Shifted(s, x)| == |s|
  {
    if s != {} {
      var v :| v in s;
      ShiftedSize(s - {v}, x);
      forall w | w in s && Xor(w, x) == Xor(v, x) ensures w == v {
        assert w == Xor(Xor(w, x), x) && v == Xor(Xor(v, x), x);
      }
      assert Shifted(s, x) == Shifted(s - {v}, x) + {Xor(v, x)};
      assert Xor(v, x) !in Shifted(s - {v}, x);
    }
  }

  lemma SpanClosed(d: seq<Col>, v: Col, w: Col)
    requires v in Span(d) && w in Span(d)
    ensures Xor(v, w) in Span(d)
  {
    SpanMember(d, v);
    SpanMember(d, w);
    SpanMember(d, Xor(v, w));
    var a: set<nat>, b: set<nat> :| v == Comb(d, a) && w == Comb(d, b);
    CombLinear(d, a, b);
    assert Xor(v, w) == Comb(d, Xor(a, b));
  }

  lemma ShiftedOut(d: seq<Col>, v: Col, x: Col)
    requires v in Span(d) && Xor(v, x) in Span(d)
    ensures x in Span(d)
  {
    SpanClosed(d, v, Xor(v, x));
    assert Xor(v, Xor(v, x)) == x;
  }

  /** One more column doubles the span, or leaves it when it was in it. */
  lemma SpanSnoc(d: seq<Col>, x: Col)
    ensures x in Span(d) ==> Span(d + [x]) == Span(d)
    ensures x !in Span(d) ==> |Span(d + [x])| == 2 * |Span(d)|
  {
    var s := Span(d);
    assert (d + [x])[..|d|] == d;
    ShiftedSize(s, x);
    if x in s {
      forall v | v in s ensures Xor(v, x) in s {
        SpanClosed(d, v, x);
      }
    } else {
      forall v | v in s ensures Xor(v, x) !in s {
        if Xor(v, x) in s { ShiftedOut(d, v, x); }
      }
      assert s !! Shifted(s, x);
    }
  }

  /** k is the rank when the columns have 2^k sums. */
  ghost predicate IsRank(d: seq<Col>, k: nat) {
    |Span(d)| == LazyTermination.Pow2(k)
  }

  lemma {:induction false} PowersDiffer(k: nat, l: nat)
    requires k < l
    ensures LazyTermination.Pow2(k) < LazyTermination.Pow2(l)
  {
    if k < l - 1 { PowersDiffer(k, l - 1); }
    PowerPositive(l - 1);
  }

  lemma {:induction false} PowerPositive(k: nat)
    ensures LazyTermination.Pow2(k) > 0
  {
    if k > 0 { PowerPositive(k - 1); }
  }

  lemma RankSnoc(d: seq<Col>, x: Col, k: nat)
    requires IsRank(d, k)
    ensures IsRank(d + [x], if x in Span(d) then k else k + 1)
  {
    hide Span;
    SpanSnoc(d, x);
  }

  lemma NoColumnsNoRank()
    ensures IsRank([], 0)
  {
  }

  lemma RankUnique(d: seq<Col>, k: nat, l: nat)
    requires IsRank(d, k) && IsRank(d, l)
    ensures k == l
  {
    if k < l { PowersDiffer(k, l); }
    if l < k { PowersDiffer(l, k); }
  }

  // ---------- the rank formula ----------

  ghost function From(s: Col, i: nat): (t: Col) {
    set r | r in s && i <= r
  }

  /** The first j columns, rows i and on. */
  ghost function Corner(d: seq<Col>, i: nat, j: nat): (e: seq<Col>)
    requires j <= |d|
  {
    seq(j, c requires 0 <= c < j => From(d[c], i))
  }

  lemma {:induction false} CombCorner(d: seq<Col>, i: nat, j: nat, comb: set<nat>)
    requires j <= |d|
    ensures Comb(Corner(d, i, j), comb) == From(Comb(d[..j], comb), i)
  {
    if j > 0 {
      CombCorner(d, i, j - 1, comb);
      assert Corner(d, i, j)[..j - 1] == Corner(d, i, j - 1);
      assert d[..j][..j - 1] == d[..j - 1];
    }
  }

  /** Column j pairs with a row from i on exactly when its part from row i on is no sum of the
      parts of earlier columns. */
  lemma PairsFrom(d: seq<Col>, i: nat, j: nat)
    requires j < |d|
    ensures Pivots(d)[j] >= i <==> From(d[j], i) !in Span(Corner(d, i, j))
  {
    var p := Pivots(d)[j];
    assert IsPivot(d, j, p);
    SpanMember(Corner(d, i, j), From(d[j], i));
    if p < i {
      var v :| InCoset(d, j, v) && Low(v) == p;
      var comb: set<nat> :| v == Xor(d[j], Comb(d[..j], comb));
      CombCorner(d, i, j, comb);
      assert From(v, i) == {};
      assert From(d[j], i) == From(Comb(d[..j], comb), i) by {
        assert forall r :: r in From(v, i) <==> (r in From(d[j], i)) != (r in From(Comb(d[..j], comb), i));
      }
    }
    if comb: set<nat> :| From(d[j], i) == Comb(Corner(d, i, j), comb) {
      CombCorner(d, i, j, comb);
      var v := Xor(d[j], Comb(d[..j], comb));
      assert InCoset(d, j, v);
      forall r | r in v ensures r < i {
        assert r in From(d[j], i) <==> r in From(Comb(d[..j], comb), i);
      }
      assert Low(v) < i;
    }
  }

  /** How many of the first j columns have their pivot in row i or later. */
  ghost function PairedFrom(pivots: seq<int>, i: nat, j: nat): nat
    requires j <= |pivots|
  {
    if j == 0 then 0 else PairedFrom(pivots, i, j - 1) + if pivots[j - 1] >= i then 1 else 0
  }

  /** The number of pairs in a corner of the matrix is its rank. */
  lemma {:induction false} RankFormula(d: seq<Col>, i: nat, j: nat)
    requires j <= |d|
    ensures IsRank(Corner(d, i, j), PairedFrom(Pivots(d), i, j))
  {
    hide IsRank, Span, Pivots, PivotVector;
    if j == 0 {
      NoColumnsNoRank();
      assert Corner(d, i, j) == [];
    } else {
      RankFormula(d, i, j - 1);
      PairsFrom(d, i, j - 1);
      RankSnoc(Corner(d, i, j - 1), From(d[j - 1], i), PairedFrom(Pivots(d), i, j - 1));
      assert Corner(d, i, j) == Corner(d, i, j - 1) + [From(d[j - 1], i)];
    }
  }

  /** Row i and column j form a pair exactly when the four corners at (i, j) have ranks with
      alternating sum 1. */
  lemma PairByRanks(d: seq<Col>, i: nat, j: nat, a: nat, b: nat, a': nat, b': nat)
    requires j < |d|
    requires IsRank(Corner(d, i, j + 1), a) && IsRank(Corner(d, i, j), b)
    requires IsRank(Corner(d, i + 1, j + 1), a') && IsRank(Corner(d, i + 1, j), b')
    ensures Pivots(d)[j] == i <==> a - b - a' + b' == 1
  {
    var p := Pivots(d);
    RankFormula(d, i, j + 1);
    RankFormula(d, i, j);
    RankFormula(d, i + 1, j + 1);
    RankFormula(d, i + 1, j);
    RankUnique(Corner(d, i, j + 1), a, PairedFrom(p, i, j + 1));
    RankUnique(Corner(d, i, j), b, PairedFrom(p, i, j));
    RankUnique(Corner(d, i + 1, j + 1), a', PairedFrom(p, i + 1, j + 1));
    RankUnique(Corner(d, i + 1, j), b', PairedFrom(p, i + 1, j));
  }
}
