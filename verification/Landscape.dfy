/** Persistence landscapes as order statistics. */
module Landscape {
  // The sorted form with zeros dropped, the sorted form with zero padding, and their stability.

  import opened Wrappers
  import opened Sorting

  datatype Death = At(time: real) | Never

  type Bar = (real, real)

  // ---------- tents ----------

  /** The tent of a bar at x, by the cases of the scalar loop. */
  function Tent(bar: Bar, x: real): (h: real)
    ensures h >= 0.0
  {
    var (b, d) := bar;
    var mid := (b + d) / 2.0;
    if b <= x <= mid then x - b else if mid < x <= d then d - x else 0.0
  }

  function Abs(x: real): real {
    if x < 0.0 then -x else x
  }

  /** The same tent by midpoint and height, cut off at zero. */
  function TentByMidpoint(bar: Bar, x: real): (h: real) {
    var (b, d) := bar;
    var mid, height := (b + d) / 2.0, (d - b) / 2.0;
    var tent := height - Abs(x - mid);
    if tent > 0.0 then tent else 0.0
  }

  lemma TentFormsAgree(bar: Bar, x: real)
    ensures Tent(bar, x) == TentByMidpoint(bar, x)
    ensures bar.1 <= bar.0 ==> Tent(bar, x) == 0.0
  {
  }

  lemma TentIsMinMax(bar: Bar, x: real)
    ensures var left := x - bar.0; var right := bar.1 - x; var low := if left <= right then left else right;
            Tent(bar, x) == if low > 0.0 then low else 0.0
  {
  }

  /** Moving both ends of a bar by at most e moves its tent by at most e. */
  lemma TentStable(bar: Bar, moved: Bar, e: real, x: real)
    requires Abs(bar.0 - moved.0) <= e && Abs(bar.1 - moved.1) <= e
    ensures Tent(bar, x) - e <= Tent(moved, x)
  {
    TentIsMinMax(bar, x);
    TentIsMinMax(moved, x);
  }

  function TentsAt(bars: seq<Bar>, x: real): (tents: seq<real>)
    ensures |tents| == |bars| && forall i :: 0 <= i < |bars| ==> tents[i] == Tent(bars[i], x)
  {
    seq(|bars|, i requires 0 <= i < |bars| => Tent(bars[i], x))
  }

  // ---------- order statistics ----------

  ghost function CountAtLeast(s: seq<real>, t: real): nat {
    if s == [] then 0 else CountAtLeast(s[..|s| - 1], t) + if s[|s| - 1] >= t then 1 else 0
  }

  /** v is the value of level k: the (k+1)-st largest entry, 0 beyond the positive ones. */
  ghost predicate IsLevel(s: seq<real>, k: nat, v: real) {
    v >= 0.0 && forall t :: t > 0.0 ==> (v >= t <==> CountAtLeast(s, t) > k)
  }

  lemma LevelUnique(s: seq<real>, k: nat, v: real, w: real)
    requires IsLevel(s, k, v) && IsLevel(s, k, w)
    ensures v == w
  {
    if v > 0.0 { assert CountAtLeast(s, v) > k; }
    if w > 0.0 { assert CountAtLeast(s, w) > k; }
  }

  lemma LevelsDecrease(s: seq<real>, k: nat, l: nat, v: real, w: real)
    requires k <= l && IsLevel(s, k, v) && IsLevel(s, l, w)
    ensures w <= v
  {
    if w > 0.0 { assert CountAtLeast(s, w) > l; }
  }

  lemma CountSnoc(s: seq<real>, x: real, t: real)
    ensures CountAtLeast(s + [x], t) == CountAtLeast(s, t) + if x >= t then 1 else 0
  {
    assert (s + [x])[..|s|] == s;
  }

  lemma {:induction false} CountAppend(a: seq<real>, b: seq<real>, t: real)
    ensures CountAtLeast(a + b, t) == CountAtLeast(a, t) + CountAtLeast(b, t)
  {
    if b == [] {
      assert a + b == a;
    } else {
      var last := |b| - 1;
      CountAppend(a, b[..last], t);
      assert a + b == (a + b[..last]) + [b[last]];
      CountSnoc(a + b[..last], b[last], t);
    }
  }

  lemma CountExtract(b: seq<real>, i: nat, t: real)
    requires i < |b|
    ensures CountAtLeast(b, t) == CountAtLeast(b[..i] + b[i + 1..], t) + if b[i] >= t then 1 else 0
  {
    assert b == b[..i] + [b[i]] + b[i + 1..];
    CountAppend(b[..i], b[i + 1..], t);
    CountAppend(b[..i] + [b[i]], b[i + 1..], t);
    CountSnoc(b[..i], b[i], t);
  }

  /** Rearranging does not change how many entries reach t. */
  lemma {:induction false} CountRearranged(a: seq<real>, b: seq<real>, t: real)
    requires multiset(a) == multiset(b)
    ensures CountAtLeast(a, t) == CountAtLeast(b, t)
    decreases |a|
  {
    if a == [] {
      assert |b| == |multiset(b)| == 0;
    } else {
      var last := |a| - 1;
      var i := DropOne(a, b);
      hide CountAtLeast;
      CountRearranged(a[..last], b[..i] + b[i + 1..], t);
      CountExtract(b, i, t);
      assert a == a[..last] + [a[last]];
      CountSnoc(a[..last], a[last], t);
    }
  }

  ghost predicate Descending(s: seq<real>) {
    forall i, j :: 0 <= i < j < |s| ==> s[i] >= s[j]
  }

  /** In a descending list more than k entries reach t exactly when entry k does. */
  lemma {:induction false} CountDescending(s: seq<real>, k: nat, t: real)
    requires Descending(s)
    ensures CountAtLeast(s, t) > k <==> k < |s| && s[k] >= t
    ensures CountAtLeast(s, t) <= |s|
  {
    if s != [] {
      var last := |s| - 1;
      CountDescending(s[..last], k, t);
      if s[last] >= t && last > 0 { CountDescending(s[..last], last - 1, t); }
    }
  }

  /** Entry k of the descending arrangement, 0 past its end, is level k. */
  lemma SortedPick(vals: seq<real>, sorted: seq<real>, k: nat)
    requires forall i :: 0 <= i < |vals| ==> vals[i] >= 0.0
    requires multiset(sorted) == multiset(vals) && Descending(sorted)
    ensures IsLevel(vals, k, if k < |sorted| then sorted[k] else 0.0)
  {
    var v := if k < |sorted| then sorted[k] else 0.0;
    forall t | t > 0.0 ensures v >= t <==> CountAtLeast(vals, t) > k {
      CountRearranged(vals, sorted, t);
      CountDescending(sorted, k, t);
    }
    if k < |sorted| {
      assert sorted[k] in multiset(vals);
    }
  }

  /** Sort descending and take entry k, 0 past the end. */
  method PickLevel(vals: seq<real>, k: nat) returns (v: real)
    requires forall i :: 0 <= i < |vals| ==> vals[i] >= 0.0
    ensures IsLevel(vals, k, v)
  {
    var sorted := SortDescending(vals);
    SortedPick(vals, sorted, k);
    v := if k < |sorted| then sorted[k] else 0.0;
  }

  method SortDescending(vals: seq<real>) returns (sorted: seq<real>)
    ensures multiset(sorted) == multiset(vals) && Descending(sorted)
  {
    var ge := (a: real, b: real) => a >= b;
    sorted := Sort(vals, ge);
    forall i, j | 0 <= i < j < |sorted| ensures sorted[i] >= sorted[j] {
      assert ge(sorted[i], sorted[j]);
    }
  }

  /** Keep the positive entries. */
  function Positive(s: seq<real>): (p: seq<real>)
    ensures forall i :: 0 <= i < |p| ==> p[i] > 0.0
  {
    if s == [] then []
    else Positive(s[..|s| - 1]) + if s[|s| - 1] > 0.0 then [s[|s| - 1]] else []
  }

  /** Dropping entries that are not positive changes no level. */
  lemma {:induction false} CountPositive(s: seq<real>, t: real)
    requires t > 0.0
    ensures CountAtLeast(Positive(s), t) == CountAtLeast(s, t)
  {
    if s != [] {
      var last := |s| - 1;
      CountPositive(s[..last], t);
      if s[last] > 0.0 {
        CountSnoc(Positive(s[..last]), s[last], t);
      } else {
        assert Positive(s) == Positive(s[..last]);
      }
    }
  }

  lemma LevelOfPositive(s: seq<real>, k: nat, v: real)
    ensures IsLevel(Positive(s), k, v) <==> IsLevel(s, k, v)
  {
    forall t | t > 0.0 ensures CountAtLeast(Positive(s), t) == CountAtLeast(s, t) {
      CountPositive(s, t);
    }
  }

  // ---------- stability ----------

  /** If each entry of s drops by at most e in w, as many entries of w reach t - e as of s reach t. */
  lemma {:induction false} CountStable(s: seq<real>, w: seq<real>, e: real, t: real)
    requires |s| == |w| && forall i :: 0 <= i < |s| ==> s[i] - e <= w[i]
    ensures CountAtLeast(s, t) <= CountAtLeast(w, t - e)
  {
    if s != [] {
      CountStable(s[..|s| - 1], w[..|s| - 1], e, t);
    }
  }

  lemma LevelStable(s: seq<real>, w: seq<real>, e: real, k: nat, v: real, u: real)
    requires |s| == |w| && e >= 0.0 && forall i :: 0 <= i < |s| ==> s[i] - e <= w[i]
    requires IsLevel(s, k, v) && IsLevel(w, k, u)
    ensures v - e <= u
  {
    if v - e > 0.0 {
      assert CountAtLeast(s, v) > k;
      CountStable(s, w, e, v);
    }
  }

  ghost predicate Within(bars: seq<Bar>, moved: seq<Bar>, e: real) {
    && |bars| == |moved|
    && forall i :: 0 <= i < |bars| ==> Abs(bars[i].0 - moved[i].0) <= e && Abs(bars[i].1 - moved[i].1) <= e
  }

  /** Moving every birth and death by at most e changes every level at every x by at most e. */
  lemma LandscapeStability(bars: seq<Bar>, moved: seq<Bar>, e: real, x: real, k: nat, v: real, u: real)
    requires e >= 0.0 && Within(bars, moved, e)
    requires IsLevel(TentsAt(bars, x), k, v) && IsLevel(TentsAt(moved, x), k, u)
    ensures Abs(v - u) <= e
  {
    forall i | 0 <= i < |bars|
      ensures TentsAt(bars, x)[i] - e <= TentsAt(moved, x)[i] && TentsAt(moved, x)[i] - e <= TentsAt(bars, x)[i]
    {
      TentStable(bars[i], moved[i], e, x);
      TentStable(moved[i], bars[i], e, x);
    }
    LevelStable(TentsAt(bars, x), TentsAt(moved, x), e, k, v, u);
    LevelStable(TentsAt(moved, x), TentsAt(bars, x), e, k, u, v);
  }

  // ---------- the scalar form: positive tents only ----------

  /** Bars with a finite death after their birth. */
  function FiniteBars(diagram: seq<(real, Death)>): (bars: seq<Bar>)
    ensures forall i :: 0 <= i < |bars| ==> bars[i].0 < bars[i].1
  {
    if diagram == [] then []
    else
      var (b, death) := diagram[|diagram| - 1];
      FiniteBars(diagram[..|diagram| - 1]) + if death.At? && death.time > b then [(b, death.time)] else []
  }

  ghost predicate IsMinBirth(bars: seq<Bar>, m: real) {
    (forall i :: 0 <= i < |bars| ==> m <= bars[i].0) && exists i :: 0 <= i < |bars| && bars[i].0 == m
  }

  ghost predicate IsMaxDeath(bars: seq<Bar>, m: real) {
    (forall i :: 0 <= i < |bars| ==> bars[i].1 <= m) && exists i :: 0 <= i < |bars| && bars[i].1 == m
  }

  /** Gather the finite bars with their earliest birth and latest death. */
  method Gather(diagram: seq<(real, Death)>) returns (bars: seq<Bar>, birth: real, death: real)
    ensures bars == FiniteBars(diagram)
    ensures bars != [] ==> IsMinBirth(bars, birth) && IsMaxDeath(bars, death)
  {
    bars, birth, death := [], 0.0, 0.0;
    for i := 0 to |diagram|
      invariant bars == FiniteBars(diagram[..i])
      invariant bars != [] ==> IsMinBirth(bars, birth) && IsMaxDeath(bars, death)
    {
      assert diagram[..i + 1][..i] == diagram[..i];
      var (b, d) := diagram[i];
      if d.At? && d.time > b {
        var grown := bars + [(b, d.time)];
        Extremes(bars, (b, d.time), birth, death);
        birth := if bars == [] || b < birth then b else birth;
        death := if bars == [] || d.time > death then d.time else death;
        bars := grown;
      }
    }
    assert diagram[..|diagram|] == diagram;
  }

  lemma Extremes(bars: seq<Bar>, bar: Bar, birth: real, death: real)
    requires bars != [] ==> IsMinBirth(bars, birth) && IsMaxDeath(bars, death)
    ensures IsMinBirth(bars + [bar], if bars == [] || bar.0 < birth then bar.0 else birth)
    ensures IsMaxDeath(bars + [bar], if bars == [] || bar.1 > death then bar.1 else death)
  {
    var grown := bars + [bar];
    assert grown[|bars|] == bar;
    if bars != [] {
      var i :| 0 <= i < |bars| && bars[i].0 == birth;
      var j :| 0 <= j < |bars| && bars[j].1 == death;
      assert grown[i].0 == birth && grown[j].1 == death;
    }
  }

  /** Conversion of a quotient to an integer: toward zero. */
  function Truncate(x: real): int {
    if x >= 0.0 then x.Floor else -((-x).Floor)
  }

  function SampleCount(range: real, resolution: real): (n: nat)
    requires resolution != 0.0
    ensures n >= 100
  {
    var n := Truncate(range / resolution);
    if n > 100 then n else 100
  }

  function SampleAt(start: real, range: real, n: nat, i: nat): real
    requires n >= 2
  {
    start + i as real * (range / (n - 1) as real)
  }

  /** xs goes from first to last in equal steps. */
  ghost predicate EvenlySpaced(xs: seq<real>, first: real, last: real) {
    && |xs| >= 2 && xs[0] == first && xs[|xs| - 1] == last
    && forall i :: 0 < i < |xs| - 1 ==> xs[i + 1] - xs[i] == xs[i] - xs[i - 1]
  }

  lemma StepsEven(start: real, range: real, n: nat, xs: seq<real>)
    requires n >= 2 && |xs| == n
    requires forall i :: 0 <= i < n ==> xs[i] == start + i as real * (range / (n - 1) as real)
    ensures EvenlySpaced(xs, start, start + range)
  {
    var step := range / (n - 1) as real;
    assert (n - 1) as real * step == range;
    forall i | 0 < i < n - 1 ensures xs[i + 1] - xs[i] == xs[i] - xs[i - 1] {
      assert (i + 1) as real * step == i as real * step + step;
      assert (i - 1) as real * step == i as real * step - step;
    }
  }

  /** Level k over evenly spaced samples, both ends included. */
  ghost predicate LevelOver(bars: seq<Bar>, k: nat, first: real, last: real, row: seq<real>) {
    exists xs :: EvenlySpaced(xs, first, last) && |xs| == |row| &&
      forall i :: 0 <= i < |row| ==> IsLevel(TentsAt(bars, xs[i]), k, row[i])
  }

  /** n is the larger of 100 and the whole part of q. */
  ghost predicate IsSampleCount(q: real, n: nat) {
    (n == 100 && q < 101.0) || (n > 100 && n as real <= q < (n + 1) as real)
  }

  lemma SampledOver(bars: seq<Bar>, k: nat, start: real, range: real, n: nat, row: seq<real>)
    requires n >= 2 && SampledLevel(bars, k, start, range, n, row)
    ensures LevelOver(bars, k, start, start + range, row)
  {
    var xs := seq(n, i requires 0 <= i < n => SampleAt(start, range, n, i));
    StepsEven(start, range, n, xs);
    hide IsLevel, EvenlySpaced;
    forall i | 0 <= i < |row| ensures IsLevel(TentsAt(bars, xs[i]), k, row[i]) {
      assert xs[i] == SampleAt(start, range, n, i);
    }
  }

  lemma CountIsWhole(range: real, resolution: real)
    requires resolution != 0.0
    ensures IsSampleCount(range / resolution, SampleCount(range, resolution))
  {
  }

  datatype Levels = Levels(xMin: real, xMax: real, levels: seq<seq<real>>)

  /** The samples of level k. */
  ghost predicate SampledLevel(bars: seq<Bar>, k: nat, start: real, range: real, n: nat, row: seq<real>)
    requires n >= 2
  {
    |row| == n && forall i :: 0 <= i < n ==> IsLevel(TentsAt(bars, SampleAt(start, range, n, i)), k, row[i])
  }

  ghost predicate Filled(tents: array2<real>, bars: seq<Bar>, start: real, range: real, n: nat)
    requires n >= 2
    reads tents
  {
    && tents.Length0 == |bars| && tents.Length1 == n
    && forall p, i :: 0 <= p < |bars| && 0 <= i < n ==> tents[p, i] == Tent(bars[p], SampleAt(start, range, n, i))
  }

  method FillTents(bars: seq<Bar>, start: real, range: real, n: nat) returns (tents: array2<real>)
    requires n >= 2
    ensures fresh(tents) && Filled(tents, bars, start, range, n)
  {
    tents := new real[|bars|, n]((_, _) => 0.0);
    for p := 0 to |bars|
      invariant forall q, i :: 0 <= q < p && 0 <= i < n ==> tents[q, i] == Tent(bars[q], SampleAt(start, range, n, i))
      invariant forall q, i :: p <= q < |bars| && 0 <= i < n ==> tents[q, i] == 0.0
    {
      var (b, d) := bars[p];
      var mid := (b + d) / 2.0;
      for i := 0 to n
        invariant forall q, i :: 0 <= q < p && 0 <= i < n ==> tents[q, i] == Tent(bars[q], SampleAt(start, range, n, i))
        invariant forall j :: 0 <= j < i ==> tents[p, j] == Tent(bars[p], SampleAt(start, range, n, j))
        invariant forall j :: i <= j < n ==> tents[p, j] == 0.0
        invariant forall q, i :: p < q < |bars| && 0 <= i < n ==> tents[q, i] == 0.0
      {
        var x := SampleAt(start, range, n, i);
        if x >= b && x <= mid {
          tents[p, i] := x - b;
        } else if x > mid && x <= d {
          tents[p, i] := d - x;
        }
      }
    }
  }

  /** Collect the positive tents of one sample. */
  method PositiveTents(tents: array2<real>, i: nat, ghost column: seq<real>) returns (vals: seq<real>)
    requires i < tents.Length1 && |column| == tents.Length0
    requires forall p :: 0 <= p < |column| ==> tents[p, i] == column[p]
    ensures vals == Positive(column)
    ensures forall j :: 0 <= j < |vals| ==> vals[j] > 0.0
  {
    vals := [];
    for p := 0 to tents.Length0
      invariant vals == Positive(column[..p])
    {
      assert column[..p + 1][..p] == column[..p];
      if tents[p, i] > 0.0 {
        vals := vals + [tents[p, i]];
      }
    }
    assert column[..|column|] == column;
  }

  /** All samples of level k. */
  method LevelRow(tents: array2<real>, bars: seq<Bar>, k: nat, start: real, range: real, n: nat)
    returns (row: seq<real>)
    requires n >= 2 && Filled(tents, bars, start, range, n)
    ensures SampledLevel(bars, k, start, range, n, row)
  {
    hide Tent, IsLevel, Positive, SampleAt;
    row := [];
    for i := 0 to n
      invariant |row| == i
      invariant forall j :: 0 <= j < i ==> IsLevel(TentsAt(bars, SampleAt(start, range, n, j)), k, row[j])
    {
      ghost var column := TentsAt(bars, SampleAt(start, range, n, i));
      var vals := PositiveTents(tents, i, column);
      var v := PickLevel(vals, k);
      LevelOfPositive(column, k, v);
      row := row + [v];
    }
  }

  method ComputeLandscape(diagram: seq<(real, Death)>, numLevels: nat, resolution: real) returns (r: Levels)
    requires resolution != 0.0
    ensures |r.levels| == numLevels
    ensures FiniteBars(diagram) == [] ==> r == Levels(0.0, 1.0, seq(numLevels, _ => []))
    ensures FiniteBars(diagram) != [] ==>
              var bars := FiniteBars(diagram); var range := r.xMax - r.xMin;
              && IsMinBirth(bars, r.xMin) && IsMaxDeath(bars, r.xMax)
              && forall k :: 0 <= k < numLevels ==>
                   && SampledLevel(bars, k, r.xMin, range, SampleCount(range, resolution), r.levels[k])
                   && LevelOver(bars, k, r.xMin, r.xMax, r.levels[k])
                   && IsSampleCount((r.xMax - r.xMin) / resolution, |r.levels[k]|)
  {
    var bars, birth, death := Gather(diagram);
    if |bars| == 0 {
      return Levels(0.0, 1.0, seq(numLevels, _ => []));
    }
    var range := death - birth;
    PositiveRange(bars, birth, death);
    var n := SampleCount(range, resolution);
    hide *;
    var levels := AllLevels(bars, numLevels, birth, range, n);
    r := Levels(birth, death, levels);
    CountIsWhole(range, resolution);
    LevelsOver(bars, birth, range, n, levels);
  }

  method AllLevels(bars: seq<Bar>, numLevels: nat, start: real, range: real, n: nat) returns (levels: seq<seq<real>>)
    requires n >= 2
    ensures |levels| == numLevels
    ensures forall k :: 0 <= k < numLevels ==> SampledLevel(bars, k, start, range, n, levels[k])
  {
    hide SampledLevel, Filled;
    var tents := FillTents(bars, start, range, n);
    levels := [];
    for k := 0 to numLevels
      invariant |levels| == k && Filled(tents, bars, start, range, n)
      invariant forall l :: 0 <= l < k ==> SampledLevel(bars, l, start, range, n, levels[l])
    {
      var row := LevelRow(tents, bars, k, start, range, n);
      levels := levels + [row];
    }
  }

  lemma LevelsOver(bars: seq<Bar>, start: real, range: real, n: nat, levels: seq<seq<real>>)
    requires n >= 2 && forall k :: 0 <= k < |levels| ==> SampledLevel(bars, k, start, range, n, levels[k])
    ensures forall k :: 0 <= k < |levels| ==> |levels[k]| == n && LevelOver(bars, k, start, start + range, levels[k])
  {
    hide LevelOver, IsLevel;
    forall k: nat | k < |levels| ensures |levels[k]| == n && LevelOver(bars, k, start, start + range, levels[k]) {
      SampledOver(bars, k, start, range, n, levels[k]);
    }
  }

  lemma PositiveRange(bars: seq<Bar>, birth: real, death: real)
    requires bars != [] && IsMinBirth(bars, birth) && IsMaxDeath(bars, death)
    requires forall i :: 0 <= i < |bars| ==> bars[i].0 < bars[i].1
    ensures death - birth > 0.0
  {
    assert birth <= bars[0].0 < bars[0].1 <= death;
  }

  // ---------- the array form: all tents, zero padding ----------

  /** Evenly spaced samples from start to start + range, both ends included. */
  function Linspace(start: real, range: real, n: nat): (ts: seq<real>)
    requires n >= 1
    ensures |ts| == n
  {
    seq(n, i => if n == 1 then start else start + i as real * (range / (n - 1) as real))
  }

  /** From the earliest birth to the latest death, or a little further when they are the same. */
  ghost predicate GridOver(grid: seq<real>, birth: real, death: real) {
    if |grid| == 1 then grid[0] == birth
    else EvenlySpaced(grid, birth, if death <= birth then birth + 0.000000000001 else death)
  }

  lemma LinspaceOver(birth: real, death: real, n: nat)
    requires n >= 1
    ensures GridOver(Linspace(birth, if death <= birth then 0.000000000001 else death - birth, n), birth, death)
  {
    var range := if death <= birth then 0.000000000001 else death - birth;
    if n > 1 { StepsEven(birth, range, n, Linspace(birth, range, n)); }
  }

  predicate DeathsFollowBirths(bars: seq<Bar>) {
    forall i :: 0 <= i < |bars| ==> bars[i].1 >= bars[i].0
  }

  method ColumnTents(bars: seq<Bar>, x: real) returns (column: seq<real>)
    ensures column == TentsAt(bars, x)
  {
    column := [];
    for p := 0 to |bars|
      invariant |column| == p && forall q :: 0 <= q < p ==> column[q] == Tent(bars[q], x)
    {
      var (b, d) := bars[p];
      var midpoint, height := (b + d) / 2.0, (d - b) / 2.0;
      var tent := height - Abs(x - midpoint);
      tent := if tent > 0.0 then tent else 0.0;
      TentFormsAgree(bars[p], x);
      column := column + [tent];
    }
  }

  method Extent(bars: seq<Bar>) returns (birth: real, death: real)
    requires bars != []
    ensures IsMinBirth(bars, birth) && IsMaxDeath(bars, death)
  {
    birth, death := bars[0].0, bars[0].1;
    for i := 0 to |bars|
      invariant i > 0 ==> IsMinBirth(bars[..i], birth) && IsMaxDeath(bars[..i], death)
    {
      assert bars[..i + 1] == bars[..i] + [bars[i]];
      Extremes(bars[..i], bars[i], birth, death);
      birth := if i == 0 || bars[i].0 < birth then bars[i].0 else birth;
      death := if i == 0 || bars[i].1 > death then bars[i].1 else death;
    }
    assert bars[..|bars|] == bars;
  }

  method PersistenceLandscapeFast(bars: seq<Bar>, layers: int, resolution: int)
    returns (r: Result<seq<seq<real>>>, ghost grid: seq<real>)
    ensures resolution <= 0 ==> r == Failure(BadResolution)
    ensures resolution > 0 && layers <= 0 ==> r == Failure(BadLayerCount)
    ensures resolution > 0 && layers > 0 ==>
              (r == Failure(DeathBeforeBirth) <==> exists i :: 0 <= i < |bars| && bars[i].1 < bars[i].0)
    ensures resolution > 0 && layers > 0 && r != Failure(DeathBeforeBirth) ==>
              && r.Success? && |r.value| == layers && |grid| == resolution
              && (forall k :: 0 <= k < layers ==> |r.value[k]| == resolution)
              && forall k, i :: 0 <= k < layers && 0 <= i < resolution ==>
                IsLevel(TentsAt(bars, grid[i]), k, r.value[k][i])
    ensures r.Success? && bars != [] ==>
              exists birth, death :: IsMinBirth(bars, birth) && IsMaxDeath(bars, death) && GridOver(grid, birth, death)
  {
    grid := [];
    if resolution <= 0 { return Failure(BadResolution), []; }
    if layers <= 0 { return Failure(BadLayerCount), []; }
    if !DeathsFollowBirths(bars) { return Failure(DeathBeforeBirth), []; }
    if |bars| == 0 {
      grid := seq(resolution, _ => 0.0);
      var zeros := seq(layers, _ => seq(resolution, _ => 0.0));
      return Success(zeros), grid;
    }
    var birth, death := Extent(bars);
    var ts := Linspace(birth, if death <= birth then 0.000000000001 else death - birth, resolution);
    grid := ts;
    LinspaceOver(birth, death, resolution);
    hide GridOver;
    hide Linspace, IsLevel, IsMinBirth, IsMaxDeath, Tent, Descending;
    var columns: seq<seq<real>> := [];
    for i := 0 to resolution
      invariant |columns| == i
      invariant forall j, k: nat :: 0 <= j < i ==> IsLevel(TentsAt(bars, ts[j]), k, PaddedEntry(columns[j], k))
    {
      var column := ColumnTents(bars, ts[i]);
      var sorted := SortDescending(column);
      forall k: nat ensures IsLevel(TentsAt(bars, ts[i]), k, PaddedEntry(sorted, k)) {
        SortedPick(column, sorted, k);
      }
      columns := columns + [sorted];
    }
    r := Success(seq(layers, k requires 0 <= k < layers =>
      seq(resolution, i requires 0 <= i < resolution => PaddedEntry(columns[i], k))));
  }

  /** Entry k of a sorted column, with zero rows appended. */
  function PaddedEntry(sorted: seq<real>, k: nat): real {
    if k < |sorted| then sorted[k] else 0.0
  }

  /** At any x, dropping bars without positive length and then zeros gives the same level as
      padding with zeros. */
  lemma {:induction false} FormsAgree(bars: seq<Bar>, x: real, k: nat, v: real, w: real)
    requires IsLevel(TentsAt(FiniteBars(AsDiagram(bars)), x), k, v) && IsLevel(TentsAt(bars, x), k, w)
    ensures v == w
  {
    forall t | t > 0.0
      ensures CountAtLeast(TentsAt(FiniteBars(AsDiagram(bars)), x), t) == CountAtLeast(TentsAt(bars, x), t)
    {
      EmptyBarsDoNotCount(bars, x, t);
    }
    LevelUnique(TentsAt(bars, x), k, v, w);
  }

  function AsDiagram(bars: seq<Bar>): (diagram: seq<(real, Death)>) {
    seq(|bars|, i requires 0 <= i < |bars| => (bars[i].0, At(bars[i].1)))
  }

  lemma {:induction false} EmptyBarsDoNotCount(bars: seq<Bar>, x: real, t: real)
    requires t > 0.0
    ensures CountAtLeast(TentsAt(FiniteBars(AsDiagram(bars)), x), t) == CountAtLeast(TentsAt(bars, x), t)
  {
    if bars != [] {
      var last := |bars| - 1;
      var rest := bars[..last];
      EmptyBarsDoNotCount(rest, x, t);
      assert AsDiagram(bars)[..last] == AsDiagram(rest);
      assert TentsAt(bars, x)[..last] == TentsAt(rest, x);
      TentFormsAgree(bars[last], x);
      if bars[last].1 > bars[last].0 {
        assert TentsAt(FiniteBars(AsDiagram(bars)), x) ==
          TentsAt(FiniteBars(AsDiagram(rest)), x) + [Tent(bars[last], x)];
        CountSnoc(TentsAt(FiniteBars(AsDiagram(rest)), x), Tent(bars[last], x), t);
      } else {
        assert FiniteBars(AsDiagram(bars)) == FiniteBars(AsDiagram(rest));
      }
    }
  }
}
