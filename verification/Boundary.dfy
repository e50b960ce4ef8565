/** Signed boundary matrices, and the boundary of a boundary. */
module Boundary {
  import opened Wrappers
  import opened Z2
  import opened Simplices
  import opened Sorting

  function Sgn(i: nat): int {
    if i % 2 == 0 then 1 else -1
  }

  // ---------- the faces of one simplex ----------

  /** The fixed-size version: row i lists the other vertices in order. */
  method SimplexBoundary(s: Simplex) returns (boundary: array2<nat>)
    ensures boundary.Length0 == |s| && boundary.Length1 == if |s| == 0 then 0 else |s| - 1
    ensures forall i, k :: 0 <= i < |s| && 0 <= k < |s| - 1 ==> boundary[i, k] == Remove(s, i)[k]
  {
    var dim := |s|;
    if dim == 0 { return new nat[0, 0]; }
    boundary := new nat[dim, dim - 1]((_, _) => 0);
    for i := 0 to dim
      invariant forall x, k :: 0 <= x < i && 0 <= k < dim - 1 ==> boundary[x, k] == Remove(s, x)[k]
    {
      var idx := 0;
      for j := 0 to dim
        invariant idx == if j <= i then j else j - 1
        invariant forall x, k :: 0 <= x < i && 0 <= k < dim - 1 ==> boundary[x, k] == Remove(s, x)[k]
        invariant forall k :: 0 <= k < idx ==> boundary[i, k] == Remove(s, i)[k]
      {
        if j != i {
          boundary[i, idx] := s[j];
          idx := idx + 1;
        }
      }
    }
  }

  // ---------- the matrix ----------

  /** The signed incidence of f in the first k faces of s. */
  ghost function IncidenceTo(f: Simplex, s: Simplex, k: nat): int
    requires k <= |s|
  {
    if k == 0 then 0
    else IncidenceTo(f, s, k - 1) + if Remove(s, k - 1) == f then Sgn(k - 1) else 0
  }

  ghost function Incidence(f: Simplex, s: Simplex): int {
    IncidenceTo(f, s, |s|)
  }

  type Entry = (nat, nat, int)

  /** What a sparse matrix holds at (row, col): repeated entries add up. */
  function EntrySum(entries: seq<Entry>, row: nat, col: nat): int {
    if entries == [] then 0
    else
      var e := entries[|entries| - 1];
      EntrySum(entries[..|entries| - 1], row, col) + if e.0 == row && e.1 == col then e.2 else 0
  }

  // ---------- sorted keys ----------

  /** v inserted before the first larger or equal vertex. */
  function Placed(s: Simplex, v: nat): (t: Simplex) {
    if s == [] || v <= s[0] then [v] + s else [s[0]] + Placed(s[1..], v)
  }

  /** The vertices of s in ascending order. */
  function Key(s: Simplex): (t: Simplex) {
    if s == [] then [] else Placed(Key(s[1..]), s[0])
  }

  ghost predicate Ascending(s: Simplex) {
    s == [] || (Ascending(s[1..]) && forall x :: x in s[1..] ==> s[0] <= x)
  }

  lemma {:induction false} PlacedSorted(s: Simplex, v: nat)
    ensures multiset(Placed(s, v)) == multiset(s) + multiset{v}
    ensures forall x :: x in Placed(s, v) <==> x in s || x == v
    ensures Ascending(s) ==> Ascending(Placed(s, v))
  {
    if s != [] {
      assert s == [s[0]] + s[1..];
      PlacedSorted(s[1..], v);
    }
  }

  lemma {:induction false} KeySorted(s: Simplex)
    ensures multiset(Key(s)) == multiset(s) && Ascending(Key(s))
  {
    if s != [] {
      assert s == [s[0]] + s[1..];
      KeySorted(s[1..]);
      PlacedSorted(Key(s[1..]), s[0]);
    }
  }

  lemma LeastFirst(s: Simplex, t: Simplex)
    requires Ascending(s) && s != [] && t != [] && multiset(s) == multiset(t)
    ensures s[0] <= t[0]
  {
    assert t[0] in multiset(t) && t[0] in s;
    assert s == [s[0]] + s[1..];
  }

  lemma TailVertices(s: Simplex)
    requires s != []
    ensures multiset(s[1..]) == multiset(s) - multiset{s[0]}
  {
    assert s == [s[0]] + s[1..];
  }

  lemma {:induction false} AscendingUnique(s: Simplex, t: Simplex)
    requires Ascending(s) && Ascending(t) && multiset(s) == multiset(t)
    ensures s == t
  {
    assert |s| == |multiset(s)| && |t| == |multiset(t)|;
    if s != [] {
      LeastFirst(s, t);
      LeastFirst(t, s);
      TailVertices(s);
      TailVertices(t);
      AscendingUnique(s[1..], t[1..]);
      assert s == [s[0]] + s[1..] && t == [t[0]] + t[1..];
    }
  }

  /** Equal keys mean equal vertices. */
  lemma KeyIff(s: Simplex, t: Simplex)
    ensures Key(s) == Key(t) <==> multiset(s) == multiset(t)
  {
    KeySorted(s);
    KeySorted(t);
    if multiset(s) == multiset(t) { AscendingUnique(Key(s), Key(t)); }
  }

  lemma {:induction false} IncreasingKey(s: Simplex)
    requires Increasing(s)
    ensures Key(s) == s
  {
    if s != [] {
      IncreasingKey(s[1..]);
      assert s == [s[0]] + s[1..];
    }
  }

  /** The position of each key; a later simplex with the same vertices wins. */
  function IndexOf(list: seq<Simplex>): (index: map<Simplex, nat>) {
    if list == [] then map[]
    else IndexOf(list[..|list| - 1])[Key(list[|list| - 1]) := |list| - 1]
  }

  /** Simplex r has this key and no later one does. */
  ghost predicate LastWith(list: seq<Simplex>, key: Simplex, r: nat) {
    r < |list| && Key(list[r]) == key && forall q :: r < q < |list| ==> Key(list[q]) != key
  }

  lemma {:induction false} IndexIsLast(list: seq<Simplex>, key: Simplex, r: nat)
    ensures LastWith(list, key, r) <==> key in IndexOf(list) && IndexOf(list)[key] == r
  {
    if list != [] {
      hide Key;
      var last := |list| - 1;
      IndexIsLast(list[..last], key, r);
      assert key == Key(list[last]) && r < last ==> !LastWith(list, key, r);
    }
  }

  /** The face without vertex i has sign +1 for even i and -1 for odd i. */
  lemma FaceSign(s: Simplex, i: nat)
    requires Increasing(s) && i < |s|
    ensures Incidence(Remove(s, i), s) == if i % 2 == 0 then 1 else -1
  {
    FaceSignTo(s, i, |s|);
  }

  lemma {:induction false} FaceSignTo(s: Simplex, i: nat, k: nat)
    requires Increasing(s) && i < |s| && k <= |s|
    ensures IncidenceTo(Remove(s, i), s, k) == if k <= i then 0 else if i % 2 == 0 then 1 else -1
  {
    if k > 0 {
      FaceSignTo(s, i, k - 1);
      if k - 1 < i { FacesDiffer(s, k - 1, i); }
      if i < k - 1 { FacesDiffer(s, i, k - 1); }
    }
  }

  ghost predicate AllIncreasing(list: seq<Simplex>) {
    forall k :: 0 <= k < |list| ==> Increasing(list[k])
  }

  lemma EntrySnoc(entries: seq<Entry>, e: Entry, row: nat, col: nat)
    ensures EntrySum(entries + [e], row, col) ==
            EntrySum(entries, row, col) + if e.0 == row && e.1 == col then e.2 else 0
  {
    assert (entries + [e])[..|entries|] == entries;
  }

  /** The signs of the first k faces of s that have the vertices of simplex r, which must be the
      last one with these vertices. */
  ghost function SignsTo(lower: seq<Simplex>, r: nat, s: Simplex, k: nat): int
    requires k <= |s|
  {
    if k == 0 then 0
    else SignsTo(lower, r, s, k - 1) + if LastWith(lower, Key(Remove(s, k - 1)), r) then Sgn(k - 1) else 0
  }

  /** Entries of the first columns, and of the first i faces of the column after them. */
  ghost predicate FilledTo(lower: seq<Simplex>, higher: seq<Simplex>, entries: seq<Entry>, j: nat, i: nat)
    requires j <= |higher| && (j < |higher| ==> i <= |higher[j]|)
  {
    && (forall r, c :: 0 <= r < |lower| && 0 <= c < j ==>
          EntrySum(entries, r, c) == SignsTo(lower, r, higher[c], |higher[c]|))
    && (forall r :: 0 <= r < |lower| && j < |higher| ==> EntrySum(entries, r, j) == SignsTo(lower, r, higher[j], i))
    && (forall r, c :: 0 <= r < |lower| && j < c < |higher| ==> EntrySum(entries, r, c) == 0)
  }

  lemma SignsStep(lower: seq<Simplex>, r: nat, s: Simplex, i: nat)
    requires i < |s|
    ensures var key := Key(Remove(s, i)); var index := IndexOf(lower);
            SignsTo(lower, r, s, i + 1) ==
            SignsTo(lower, r, s, i) + if key in index && r == index[key] then Sgn(i) else 0
  {
    IndexIsLast(lower, Key(Remove(s, i)), r);
  }

  lemma FillFace(lower: seq<Simplex>, higher: seq<Simplex>, entries: seq<Entry>, j: nat, i: nat)
    requires j < |higher| && i < |higher[j]| && FilledTo(lower, higher, entries, j, i)
    ensures var key := Key(Remove(higher[j], i)); var index := IndexOf(lower);
            FilledTo(lower, higher, if key in index then entries + [(index[key], j, Sgn(i))] else entries, j, i + 1)
  {
    hide EntrySum, SignsTo, Remove, Sgn, IndexOf, Key;
    var key, index := Key(Remove(higher[j], i)), IndexOf(lower);
    forall r: nat | r < |lower|
      ensures SignsTo(lower, r, higher[j], i + 1) ==
              SignsTo(lower, r, higher[j], i) + if key in index && r == index[key] then Sgn(i) else 0
    {
      SignsStep(lower, r, higher[j], i);
    }
    if key in index {
      var longer := entries + [(index[key], j, Sgn(i))];
      forall r: nat, c: nat | r < |lower| && c < |higher|
        ensures EntrySum(longer, r, c) == EntrySum(entries, r, c) + if r == index[key] && c == j then Sgn(i) else 0
      {
        EntrySnoc(entries, (index[key], j, Sgn(i)), r, c);
      }
    }
  }

  lemma FilledColumn(lower: seq<Simplex>, higher: seq<Simplex>, entries: seq<Entry>, j: nat)
    requires j < |higher| && FilledTo(lower, higher, entries, j, |higher[j]|)
    ensures FilledTo(lower, higher, entries, j + 1, 0)
  {
  }

  lemma NothingFilled(lower: seq<Simplex>, higher: seq<Simplex>)
    ensures FilledTo(lower, higher, [], 0, 0)
  {
  }

  /** What the validation of one simplex accepts: some vertices, none of them twice. */
  predicate IsProper(s: Simplex) {
    s != [] && forall i, j :: 0 <= i < j < |s| ==> s[i] != s[j]
  }

  ghost predicate EmptyOrRepeats(s: Simplex) {
    |s| == 0 || exists a, b :: 0 <= a < b < |s| && s[a] == s[b]
  }

  lemma ProperIff(s: Simplex)
    ensures IsProper(s) <==> !EmptyOrRepeats(s)
  {
  }

  /** Entry (r, c) is the sum of the signs of the faces of column c that have the vertices of row r. */
  ghost predicate IsSignedMatrix(entries: seq<Entry>, lower: seq<Simplex>, higher: seq<Simplex>) {
    forall r, c :: 0 <= r < |lower| && 0 <= c < |higher| ==>
      EntrySum(entries, r, c) == SignsTo(lower, r, higher[c], |higher[c]|)
  }

  /** One boundary matrix as row, column and value lists, for simplices with vertices in any order. */
  method BoundaryEntries(lower: seq<Simplex>, higher: seq<Simplex>) returns (r: Result<seq<Entry>>)
    ensures r == Failure(InvalidSimplex) <==> exists j :: 0 <= j < |higher| && EmptyOrRepeats(higher[j])
    ensures r.Failure? ==> r == Failure(InvalidSimplex)
    ensures r.Success? ==> IsSignedMatrix(r.value, lower, higher)
  {
    var index := IndexOf(lower);
    var entries: seq<Entry> := [];
    NothingFilled(lower, higher);
    hide IsProper, Key, IndexOf, Remove, EntrySum, SignsTo, Sgn;
    for j := 0 to |higher|
      invariant FilledTo(lower, higher, entries, j, 0)
      invariant forall k :: 0 <= k < j ==> !EmptyOrRepeats(higher[k])
    {
      hide FilledTo, EmptyOrRepeats;
      ProperIff(higher[j]);
      if !IsProper(higher[j]) { return Failure(InvalidSimplex); }
      for i := 0 to |higher[j]|
        invariant FilledTo(lower, higher, entries, j, i)
      {
        var key := Key(Remove(higher[j], i));
        FillFace(lower, higher, entries, j, i);
        if key in index {
          entries := entries + [(index[key], j, Sgn(i))];
        }
      }
      FilledColumn(lower, higher, entries, j);
    }
    r := Success(entries);
  }

  /** The dimensions that get a matrix: 1 to min(maxDim, top). */
  function MatrixCount(levels: seq<seq<Simplex>>, maxDim: int): nat {
    var m := if maxDim < |levels| - 1 then maxDim else |levels| - 1;
    if m < 0 then 0 else m
  }

  ghost predicate HasImproper(levels: seq<seq<Simplex>>, d: nat) {
    d < |levels| && exists j :: 0 <= j < |levels[d]| && EmptyOrRepeats(levels[d][j])
  }

  /** The matrices of dimensions 1 to min(maxDim, top). */
  method BoundaryMatrices(levels: seq<seq<Simplex>>, maxDim: int) returns (r: Result<seq<seq<Entry>>>)
    ensures r == Failure(InvalidSimplex) <==>
              exists d :: 1 <= d <= maxDim && d < |levels| && HasImproper(levels, d)
    ensures r.Failure? ==> r == Failure(InvalidSimplex)
    ensures r.Success? ==> |r.value| == 0 || (|r.value| <= maxDim && |r.value| < |levels|)
    ensures r.Success? && maxDim >= 0 && levels != [] ==> |r.value| == maxDim || |r.value| == |levels| - 1
    ensures r.Success? ==>
              forall d {:trigger r.value[d]} :: 0 <= d < |r.value| ==>
                IsSignedMatrix(r.value[d], levels[d], levels[d + 1])
  {
    var matrices: seq<seq<Entry>> := [];
    var m := MatrixCount(levels, maxDim);
    hide EmptyOrRepeats, IsSignedMatrix;
    for d := 1 to m + 1
      invariant |matrices| == d - 1
      invariant forall e {:trigger matrices[e]} :: 0 <= e < |matrices| ==>
                IsSignedMatrix(matrices[e], levels[e], levels[e + 1])
      invariant forall e :: 1 <= e < d ==> !HasImproper(levels, e)
    {
      var entries := BoundaryEntries(levels[d - 1], levels[d]);
      if entries.Failure? {
        assert HasImproper(levels, d);
        return Failure(InvalidSimplex);
      }
      matrices := matrices + [entries.value];
    }
    r := Success(matrices);
  }

  // ---------- simplices with increasing vertices ----------

  ghost predicate IsBoundaryMatrix(entries: seq<Entry>, lower: seq<Simplex>, higher: seq<Simplex>) {
    forall r, c :: 0 <= r < |lower| && 0 <= c < |higher| ==> EntrySum(entries, r, c) == Incidence(lower[r], higher[c])
  }

  lemma {:induction false} SignsAreIncidence(lower: seq<Simplex>, r: nat, s: Simplex, k: nat)
    requires Distinct(lower) && AllIncreasing(lower) && Increasing(s)
    requires r < |lower| && k <= |s|
    ensures SignsTo(lower, r, s, k) == IncidenceTo(lower[r], s, k)
  {
    if k > 0 {
      SignsAreIncidence(lower, r, s, k - 1);
      var face := Remove(s, k - 1);
      assert Increasing(face);
      IncreasingKey(face);
      forall q: nat | q < |lower| ensures Key(lower[q]) == lower[q] {
        IncreasingKey(lower[q]);
      }
      assert LastWith(lower, face, r) <==> lower[r] == face;
    }
  }

  /** Over lists of distinct increasing simplices the entries are the incidence numbers. */
  lemma IncreasingMatrix(entries: seq<Entry>, lower: seq<Simplex>, higher: seq<Simplex>)
    requires Distinct(lower) && AllIncreasing(lower) && AllIncreasing(higher)
    requires IsSignedMatrix(entries, lower, higher)
    ensures IsBoundaryMatrix(entries, lower, higher)
  {
    forall r, c | 0 <= r < |lower| && 0 <= c < |higher|
      ensures EntrySum(entries, r, c) == Incidence(lower[r], higher[c])
    {
      SignsAreIncidence(lower, r, higher[c], |higher[c]|);
    }
  }

  // ---------- the boundary of a boundary ----------

  /** The signed term of the pair (i, j): drop vertex i, then vertex j of what is left. */
  ghost function Term(t: Simplex, s: Simplex, i: nat, j: nat): int
    requires i < |s| && j < |s| - 1
  {
    if Remove(Remove(s, i), j) == t then Sgn(i) * Sgn(j) else 0
  }

  /** The same two vertices in the other order come with the other sign. */
  lemma TermsCancel(t: Simplex, s: Simplex, i: nat, j: nat)
    requires i <= j < |s| - 1
    ensures Term(t, s, j + 1, i) == -Term(t, s, i, j)
  {
    var a, b := Remove(Remove(s, j + 1), i), Remove(Remove(s, i), j);
    forall k | 0 <= k < |s| - 2 ensures a[k] == b[k] {
      var p := if k < i then k else k + 1;
      assert a[k] == Remove(s, j + 1)[p];
    }
    assert a == b;
  }

  ghost function RowSum(t: Simplex, s: Simplex, i: nat, m: nat): int
    requires i < |s| && m < |s|
  {
    if m == 0 then 0 else RowSum(t, s, i, m - 1) + Term(t, s, i, m - 1)
  }

  ghost function ColSum(t: Simplex, s: Simplex, n: nat, j: nat): int
    requires n <= |s| && j < |s| - 1
  {
    if n == 0 then 0 else ColSum(t, s, n - 1, j) + Term(t, s, n - 1, j)
  }

  ghost function GridSum(t: Simplex, s: Simplex, n: nat, m: nat): int
    requires n <= |s| && m < |s|
  {
    if n == 0 then 0 else GridSum(t, s, n - 1, m) + RowSum(t, s, n - 1, m)
  }

  lemma {:induction false} GridGrows(t: Simplex, s: Simplex, n: nat, m: nat)
    requires n <= |s| && m < |s| - 1
    ensures GridSum(t, s, n, m + 1) == GridSum(t, s, n, m) + ColSum(t, s, n, m)
  {
    if n > 0 { GridGrows(t, s, n - 1, m); }
  }

  lemma {:induction false} RowMirrorsCol(t: Simplex, s: Simplex, n: nat, m: nat)
    requires m <= n < |s| && 0 < n
    ensures RowSum(t, s, n, m) == -ColSum(t, s, m, n - 1)
  {
    hide Term;
    if m > 0 {
      RowMirrorsCol(t, s, n, m - 1);
      TermsCancel(t, s, m - 1, n - 1);
    }
  }

  lemma {:induction false} GridCancels(t: Simplex, s: Simplex, n: nat)
    requires 0 < n <= |s|
    ensures GridSum(t, s, n, n - 1) == 0
  {
    if n > 1 {
      GridCancels(t, s, n - 1);
      GridGrows(t, s, n - 1, n - 2);
      RowMirrorsCol(t, s, n - 1, n - 1);
    }
  }

  lemma {:induction false} RowIsIncidence(t: Simplex, s: Simplex, i: nat, m: nat)
    requires i < |s| && m < |s|
    ensures RowSum(t, s, i, m) == Sgn(i) * IncidenceTo(t, Remove(s, i), m)
  {
    if m > 0 { RowIsIncidence(t, s, i, m - 1); }
  }

  /** Entry (t, s) of the product of two consecutive boundary matrices, over the first n rows of
      the middle dimension and the first k faces of s. */
  ghost function ProductTo(t: Simplex, s: Simplex, mid: seq<Simplex>, n: nat, k: nat): int
    requires n <= |mid| && k <= |s|
  {
    if n == 0 then 0
    else ProductTo(t, s, mid, n - 1, k) + Incidence(t, mid[n - 1]) * IncidenceTo(mid[n - 1], s, k)
  }

  lemma IncidenceStep(f: Simplex, s: Simplex, k: nat)
    requires k < |s|
    ensures IncidenceTo(f, s, k + 1) == IncidenceTo(f, s, k) + if Remove(s, k) == f then Sgn(k) else 0
  {
  }

  lemma Distributes(a: int, x: int, y: int)
    ensures a * (x + y) == a * x + y * a
  {
  }

  /** One more face adds its own incidence, once it is among the middle simplices. */
  lemma {:induction false} ProductNextFace(t: Simplex, s: Simplex, mid: seq<Simplex>, n: nat, k: nat)
    requires n <= |mid| && k < |s| && Distinct(mid)
    ensures ProductTo(t, s, mid, n, k + 1) == ProductTo(t, s, mid, n, k) +
            if Remove(s, k) in mid[..n] then Sgn(k) * Incidence(t, Remove(s, k)) else 0
  {
    hide Incidence, IncidenceTo, Remove, Sgn;
    if n > 0 {
      var m := mid[n - 1];
      ProductNextFace(t, s, mid, n - 1, k);
      IncidenceStep(m, s, k);
      assert mid[..n] == mid[..n - 1] + [m] && m !in mid[..n - 1];
      if Remove(s, k) == m {
        Distributes(Incidence(t, m), IncidenceTo(m, s, k), Sgn(k));
      }
    }
  }

  lemma {:induction false} ProductIsGrid(t: Simplex, s: Simplex, mid: seq<Simplex>, k: nat)
    requires k <= |s| && Distinct(mid) && |s| > 0
    requires forall i :: 0 <= i < |s| ==> Remove(s, i) in mid
    ensures ProductTo(t, s, mid, |mid|, k) == GridSum(t, s, k, |s| - 1)
  {
    if k == 0 {
      NoFacesYet(t, s, mid, |mid|);
    } else {
      ProductIsGrid(t, s, mid, k - 1);
      ProductNextFace(t, s, mid, |mid|, k - 1);
      RowIsIncidence(t, s, k - 1, |s| - 1);
      assert mid[..|mid|] == mid;
    }
  }

  lemma {:induction false} NoFacesYet(t: Simplex, s: Simplex, mid: seq<Simplex>, n: nat)
    requires n <= |mid|
    ensures ProductTo(t, s, mid, n, 0) == 0
  {
    if n > 0 { NoFacesYet(t, s, mid, n - 1); }
  }

  /** Over the integers the product of consecutive boundary matrices is zero, entry by entry. */
  lemma BoundaryOfBoundary(t: Simplex, s: Simplex, mid: seq<Simplex>)
    requires Distinct(mid) && |s| > 0
    requires forall i :: 0 <= i < |s| ==> Remove(s, i) in mid
    ensures ProductTo(t, s, mid, |mid|, |s|) == 0
  {
    ProductIsGrid(t, s, mid, |s|);
    GridCancels(t, s, |s|);
  }

  // ---------- modulo two ----------

  lemma FacesDiffer(s: Simplex, i: nat, k: nat)
    requires Increasing(s) && i < k < |s|
    ensures Remove(s, i) != Remove(s, k)
  {
    assert Remove(s, i)[i] == s[i + 1] && Remove(s, k)[i] == s[i];
  }

  /** An incidence number is -1, 0 or 1, and nonzero exactly for a face. */
  lemma {:induction false} IncidenceUnit(f: Simplex, s: Simplex, k: nat)
    requires Increasing(s) && k <= |s|
    ensures -1 <= IncidenceTo(f, s, k) <= 1
    ensures IncidenceTo(f, s, k) != 0 <==> exists i :: 0 <= i < k && Remove(s, i) == f
  {
    if k > 0 {
      IncidenceUnit(f, s, k - 1);
      if Remove(s, k - 1) == f {
        forall i | 0 <= i < k - 1 ensures Remove(s, i) != f {
          FacesDiffer(s, i, k - 1);
        }
      }
    }
  }

  /** A column of the mod 2 matrix: the rows of the faces of s. */
  ghost function FaceRows(lower: seq<Simplex>, s: Simplex): (c: Col)
    ensures forall r: nat :: r in c <==> r < |lower| && Incidence(lower[r], s) != 0
  {
    set r: nat | r < |lower| && Incidence(lower[r], s) != 0
  }

  /** How many of the columns d[..n] chosen by comb have row r. */
  ghost function Hits(d: seq<Col>, comb: set<nat>, r: nat, n: nat): nat
    requires n <= |d|
  {
    if n == 0 then 0 else Hits(d, comb, r, n - 1) + if n - 1 in comb && r in d[n - 1] then 1 else 0
  }

  lemma {:induction false} CombParity(d: seq<Col>, comb: set<nat>, r: nat, n: nat)
    requires n <= |d|
    ensures r in Comb(d[..n], comb) <==> Hits(d, comb, r, n) % 2 == 1
  {
    if n > 0 {
      CombParity(d, comb, r, n - 1);
      CombSnoc(d, n - 1, comb);
    }
  }

  ghost function FaceMatrix(lower: seq<Simplex>, higher: seq<Simplex>): (d: seq<Col>)
    ensures |d| == |higher|
  {
    seq(|higher|, j requires 0 <= j < |higher| => FaceRows(lower, higher[j]))
  }

  /** One middle simplex counts in the product, modulo two, when it is a face of s and has t as a
      face. */
  lemma MiddleTerm(t: Simplex, m: Simplex, s: Simplex)
    requires Increasing(s) && Increasing(m)
    ensures (Incidence(t, m) * IncidenceTo(m, s, |s|)) % 2 ==
            if Incidence(t, m) != 0 && Incidence(m, s) != 0 then 1 else 0
  {
    IncidenceUnit(t, m, |m|);
    IncidenceUnit(m, s, |s|);
    UnitProduct(Incidence(t, m), Incidence(m, s));
  }

  lemma {:induction false} HitsAreProduct(lower: seq<Simplex>, mid: seq<Simplex>, s: Simplex, r: nat, n: nat)
    requires r < |lower| && n <= |mid| && Increasing(s) && AllIncreasing(mid)
    ensures (Hits(FaceMatrix(lower, mid), FaceRows(mid, s), r, n) - ProductTo(lower[r], s, mid, n, |s|)) % 2 == 0
  {
    if n > 0 {
      HitsAreProduct(lower, mid, s, r, n - 1);
      MiddleTerm(lower[r], mid[n - 1], s);
      hide Increasing, AllIncreasing, Incidence, IncidenceTo;
    }
  }

  lemma UnitProduct(a: int, b: int)
    requires -1 <= a <= 1 && -1 <= b <= 1
    ensures (a * b) % 2 == if a != 0 && b != 0 then 1 else 0
  {
    assert a == -1 || a == 0 || a == 1;
    assert b == -1 || b == 0 || b == 1;
  }

  /** Modulo two: the boundary of the faces of s is empty. */
  lemma FacesHaveNoBoundary(lower: seq<Simplex>, mid: seq<Simplex>, s: Simplex)
    requires Distinct(mid) && AllIncreasing(mid) && Increasing(s) && |s| > 0
    requires forall i :: 0 <= i < |s| ==> Remove(s, i) in mid
    ensures Comb(FaceMatrix(lower, mid), FaceRows(mid, s)) == {}
  {
    var d := FaceMatrix(lower, mid);
    forall r: nat ensures r !in Comb(d, FaceRows(mid, s)) {
      assert d[..|d|] == d;
      if r < |lower| {
        CombParity(d, FaceRows(mid, s), r, |d|);
        HitsAreProduct(lower, mid, s, r, |mid|);
        BoundaryOfBoundary(lower[r], s, mid);
      } else {
        CombBounded(d, FaceRows(mid, s), |lower|);
      }
    }
  }
}
