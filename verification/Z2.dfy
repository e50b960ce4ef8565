/** Columns over the field with two elements. */
module Z2 {
  // A column is the set of its nonzero rows, the sum of two columns is their symmetric difference, and
  // a linear combination of the columns of a matrix is named by the set of the column indices that
  // take part in it.

  type Col = set<nat>

  function Xor(a: set<nat>, b: set<nat>): (r: set<nat>)
    ensures forall x :: x in r <==> (x in a) != (x in b)
  {
    (a - b) + (b - a)
  }

  /** The lowest nonzero row of a column, counted from the top: the largest index, -1 if none. */
  function Low(s: Col): (r: int)
    ensures r >= -1 && (s == {} <==> r == -1)
    ensures s != {} ==> r in s
    ensures forall x :: x in s ==> x <= r
  {
    if s == {} then -1
    else
      MaximumExists(s);
      var m :| m in s && forall x :: x in s ==> x <= m;
      m
  }

  lemma MaximumExists(s: Col)
    requires s != {}
    ensures exists m :: m in s && forall x :: x in s ==> x <= m
  {
    var y :| y in s;
    if s != {y} {
      assert s - {y} != {} by { assert s == (s - {y}) + {y}; }
      MaximumExists(s - {y});
      var m :| m in s - {y} && forall x :: x in s - {y} ==> x <= m;
      var top := if y <= m then m else y;
      forall x | x in s ensures x <= top {
        assert x == y || x in s - {y};
      }
      assert top in s;
    }
  }

  /** Adding a column with a different lowest row keeps the larger one. */
  lemma LowOfXor(a: Col, b: Col)
    ensures Low(a) < Low(b) ==> Low(Xor(a, b)) == Low(b)
    ensures Low(b) < Low(a) ==> Low(Xor(a, b)) == Low(a)
    ensures Low(a) == Low(b) >= 0 ==> Low(Xor(a, b)) < Low(a)
  {
    var s := Xor(a, b);
    if Low(a) < Low(b) {
      assert Low(b) in s;
    } else if Low(b) < Low(a) {
      assert Low(a) in s;
    } else if Low(a) >= 0 {
      assert Low(a) !in s;
    }
  }

  /** The sum of the columns d[c] with c in comb; indices outside the matrix contribute nothing. */
  ghost function Comb(d: seq<Col>, comb: set<nat>): Col {
    if d == [] then {}
    else
      var last := |d| - 1;
      Xor(Comb(d[..last], comb), if last in comb then d[last] else {})
  }

  lemma CombSnoc(d: seq<Col>, j: nat, comb: set<nat>)
    requires j < |d|
    ensures Comb(d[..j + 1], comb) == if j in comb then Xor(Comb(d[..j], comb), d[j]) else Comb(d[..j], comb)
  {
    assert d[..j + 1][..j] == d[..j];
  }

  lemma {:induction false} CombNone(d: seq<Col>, comb: set<nat>)
    requires forall c :: c in comb ==> |d| <= c
    ensures Comb(d, comb) == {}
  {
    if d != [] { CombNone(d[..|d| - 1], comb); }
  }

  /** A combination is linear in its coefficients. */
  lemma {:induction false} CombLinear(d: seq<Col>, a: set<nat>, b: set<nat>)
    ensures Comb(d, Xor(a, b)) == Xor(Comb(d, a), Comb(d, b))
  {
    if d != [] {
      CombLinear(d[..|d| - 1], a, b);
    }
  }

  lemma {:induction false} CombOne(d: seq<Col>, c: nat)
    requires c < |d|
    ensures Comb(d, {c}) == d[c]
  {
    var last := |d| - 1;
    if c == last {
      CombNone(d[..last], {c});
    } else {
      CombOne(d[..last], c);
    }
  }

  /** Only coefficients inside the matrix matter. */
  lemma {:induction false} CombRestrict(d: seq<Col>, a: set<nat>, b: set<nat>)
    requires forall c :: 0 <= c < |d| ==> (c in a <==> c in b)
    ensures Comb(d, a) == Comb(d, b)
  {
    if d != [] { CombRestrict(d[..|d| - 1], a, b); }
  }

  /** A combination of the first columns is a combination of the whole matrix. */
  lemma {:induction false} CombPrefix(d: seq<Col>, n: nat, comb: set<nat>)
    requires n <= |d|
    requires forall c :: c in comb ==> c < n
    ensures Comb(d, comb) == Comb(d[..n], comb)
  {
    if n < |d| {
      var last := |d| - 1;
      CombPrefix(d[..last], n, comb);
      assert d[..last][..n] == d[..n];
    } else {
      assert d[..n] == d;
    }
  }

  /** Rows of a combination are rows of one of its columns. */
  lemma {:induction false} CombBounded(d: seq<Col>, comb: set<nat>, m: nat)
    requires forall j, r :: 0 <= j < |d| && r in d[j] ==> r < m
    ensures forall r :: r in Comb(d, comb) ==> r < m
  {
    if d != [] { CombBounded(d[..|d| - 1], comb, m); }
  }
}
