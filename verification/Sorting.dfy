/** Sorting by a comparison.  Only the contract is used: a permutation in ascending order. */
module Sorting {

  ghost predicate TotalPreorder<T(!new)>(le: (T, T) -> bool) {
    Total(le) && Transitive(le)
  }

  ghost predicate Total<T(!new)>(le: (T, T) -> bool) {
    forall x, y :: le(x, y) || le(y, x)
  }

  ghost predicate Transitive<T(!new)>(le: (T, T) -> bool) {
    forall x, y, z :: le(x, y) && le(y, z) ==> le(x, z)
  }

  ghost predicate SortedBy<T>(s: seq<T>, le: (T, T) -> bool) {
    forall i, j :: 0 <= i < j < |s| ==> le(s[i], s[j])
  }

  ghost predicate Distinct<T>(s: seq<T>) {
    forall i, j :: 0 <= i < j < |s| ==> s[i] != s[j]
  }

  lemma BelowPrefix<T(!new)>(s: seq<T>, p: nat, x: T, le: (T, T) -> bool)
    requires Transitive(le) && SortedBy(s, le) && 0 < p <= |s| && le(s[p - 1], x)
    ensures forall i :: 0 <= i < p ==> le(s[i], x)
  {
    forall i | 0 <= i < p ensures le(s[i], x) {
      if i < p - 1 { assert le(s[i], s[p - 1]); }
    }
  }

  lemma InsertedSorted<T>(s: seq<T>, p: nat, x: T, le: (T, T) -> bool)
    requires SortedBy(s, le) && p <= |s|
    requires forall i :: 0 <= i < p ==> le(s[i], x)
    requires forall i :: p <= i < |s| ==> le(x, s[i])
    ensures SortedBy(s[..p] + [x] + s[p..], le)
  {
  }

  method FindPlace<T(!new)>(s: seq<T>, x: T, le: (T, T) -> bool) returns (p: nat)
    requires TotalPreorder(le) && SortedBy(s, le)
    ensures p <= |s|
    ensures forall i :: 0 <= i < p ==> le(s[i], x)
    ensures forall i :: p <= i < |s| ==> le(x, s[i])
  {
    p := |s|;
    while p > 0 && !le(s[p - 1], x)
      invariant 0 <= p <= |s|
      invariant forall i :: p <= i < |s| ==> le(x, s[i])
    {
      assert le(x, s[p - 1]);
      p := p - 1;
    }
    if p > 0 { BelowPrefix(s, p, x, le); }
  }

  method Insert<T(!new)>(s: seq<T>, x: T, le: (T, T) -> bool) returns (r: seq<T>)
    requires TotalPreorder(le) && SortedBy(s, le)
    ensures multiset(r) == multiset(s) + multiset{x}
    ensures SortedBy(r, le)
  {
    var p := FindPlace(s, x, le);
    InsertedSorted(s, p, x, le);
    r := s[..p] + [x] + s[p..];
    assert s == s[..p] + s[p..];
  }

  ghost predicate Increasing(s: seq<nat>) {
    forall i, j :: 0 <= i < j < |s| ==> s[i] < s[j]
  }

  method Sort<T(!new)>(xs: seq<T>, le: (T, T) -> bool) returns (s: seq<T>)
    requires TotalPreorder(le)
    ensures multiset(s) == multiset(xs)
    ensures SortedBy(s, le)
  {
    s := [];
    for n := 0 to |xs|
      invariant multiset(s) == multiset(xs[..n])
      invariant SortedBy(s, le)
    {
      assert xs[..n + 1] == xs[..n] + [xs[n]];
      s := Insert(s, xs[n], le);
    }
    assert xs[..|xs|] == xs;
  }

  function Iota(n: nat): (s: seq<nat>)
    ensures |s| == n && forall i :: 0 <= i < n ==> s[i] == i
  {
    seq(n, i => i)
  }

  lemma {:induction false} DistinctOnce<T>(s: seq<T>, x: T)
    requires Distinct(s)
    ensures multiset(s)[x] <= 1
  {
    if s != [] {
      var rest := s[..|s| - 1];
      assert s == rest + [s[|s| - 1]];
      DistinctOnce(rest, x);
      if x == s[|s| - 1] { assert x !in rest; }
    }
  }

  /** A rearrangement of distinct values is distinct. */
  lemma RearrangedDistinct<T>(p: seq<T>, s: seq<T>)
    requires Distinct(s) && multiset(p) == multiset(s)
    ensures Distinct(p)
  {
    forall i, j | 0 <= i < j < |p| ensures p[i] != p[j] {
      DistinctOnce(s, p[i]);
      assert p == p[..j] + [p[j]] + p[j + 1..];
      assert p[i] in p[..j];
    }
  }

  lemma WithoutEntry<T>(b: seq<T>, i: nat)
    requires i < |b|
    ensures multiset(b[..i] + b[i + 1..]) == multiset(b) - multiset{b[i]}
  {
    assert b == b[..i] + [b[i]] + b[i + 1..];
  }

  /** Take the last entry of a out of its rearrangement b. */
  lemma DropOne<T>(a: seq<T>, b: seq<T>) returns (i: nat)
    requires multiset(a) == multiset(b) && a != []
    ensures i < |b| && b[i] == a[|a| - 1]
    ensures multiset(a[..|a| - 1]) == multiset(b[..i] + b[i + 1..])
  {
    var last := |a| - 1;
    assert a[last] in multiset(b);
    i :| 0 <= i < |b| && b[i] == a[last];
    WithoutEntry(a, last);
    WithoutEntry(b, i);
    assert a[..last] + a[last + 1..] == a[..last];
  }

  lemma RearrangedIota(order: seq<nat>, n: nat)
    requires multiset(order) == multiset(Iota(n))
    ensures |order| == n && Distinct(order)
    ensures forall k :: 0 <= k < |order| ==> order[k] < n
    ensures forall i: nat :: i < n ==> i in order
  {
    var ids := Iota(n);
    RearrangedDistinct(order, ids);
    assert |order| == |multiset(order)| == |ids|;
    forall k | 0 <= k < |order| ensures order[k] < n {
      assert order[k] in multiset(order);
    }
    forall i: nat | i < n ensures i in order {
      assert ids[i] in multiset(ids);
    }
  }

  /** order lists 0..|keys|-1, each once, by ascending key; ties may come in any order. */
  ghost predicate IsArgsort(order: seq<nat>, keys: seq<real>) {
    && |order| == |keys|
    && (forall k :: 0 <= k < |order| ==> order[k] < |keys|)
    && Distinct(order)
    && (forall i: nat :: i < |keys| ==> i in order)
    && (forall k, l :: 0 <= k < l < |order| ==> keys[order[k]] <= keys[order[l]])
  }

  method Argsort(keys: seq<real>) returns (order: seq<nat>)
    ensures IsArgsort(order, keys)
  {
    var ids := Iota(|keys|);
    var key := (i: nat) => if i < |keys| then keys[i] else 0.0;
    var le := (i: nat, j: nat) => key(i) <= key(j);
    order := Sort(ids, le);
    RearrangedIota(order, |keys|);
    forall k, l | 0 <= k < l < |order| ensures keys[order[k]] <= keys[order[l]] {
      assert le(order[k], order[l]);
    }
  }
}
