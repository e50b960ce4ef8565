/** Covers of the filter range by overlapping intervals, in one and in several dimensions. */
module Cover {
  import opened Sorting

  /** The cover settings: overlap is a fraction of an interval, tiny the smallest range that is
      still divided. */
  datatype Config = Config(resolution: int, overlap: real, tiny: real) {
    function Intervals(): (n: nat)
      ensures n >= 1
    {
      if resolution > 1 then resolution else 1
    }

    function Overlap(): (o: real)
      ensures 0.0 <= o <= 0.95
    {
      if overlap < 0.0 then 0.0 else if overlap > 0.95 then 0.95 else overlap
    }
  }

  // ---------- one interval grid ----------

  /** A divided range: intervals of the given size from low, widened by margin on both sides. */
  datatype Grid = Grid(low: real, size: real, margin: real, count: nat) {
    predicate Holds(i: nat, v: real) {
      low + i as real * size - margin <= v <= low + (i + 1) as real * size + margin
    }
  }

  /** The grid that divides low..high evenly. */
  function EvenGrid(low: real, high: real, config: Config): Grid {
    var size := (high - low) / config.Intervals() as real;
    Grid(low, size, size * config.Overlap(), config.Intervals())
  }

  lemma {:induction false} FirstHolding(g: Grid, v: real, k: nat) returns (i: nat)
    requires g.size >= 0.0 && g.margin >= 0.0 && k > 0
    requires g.low <= v <= g.low + k as real * g.size
    ensures i < k && g.Holds(i, v)
  {
    if k == 1 || v >= g.low + (k - 1) as real * g.size {
      i := k - 1;
      assert k == 1 ==> (k - 1) as real * g.size == 0.0;
    } else {
      i := FirstHolding(g, v, k - 1);
    }
  }

  /** Every value of the divided range lies in some interval of its grid. */
  lemma GridCovers(low: real, high: real, config: Config, v: real) returns (i: nat)
    requires low <= v <= high
    ensures i < config.Intervals() && EvenGrid(low, high, config).Holds(i, v)
  {
    var g, n := EvenGrid(low, high, config), config.Intervals();
    assert n as real * g.size == high - low;
    DivideNonNegative(high - low, n as real);
    ScaleNonNegative(g.size, config.Overlap());
    i := FirstHolding(g, v, n);
  }

  /** v lies in interval i of the range low..high, in terms of the settings alone: the range is cut
      into equal parts, and each is widened on both sides by the overlap, held between 0 and 0.95. */
  ghost predicate InWidened(config: Config, low: real, high: real, i: nat, v: real) {
    var parts := if config.resolution > 1 then config.resolution as real else 1.0;
    var size := (high - low) / parts;
    var overlap := if config.overlap < 0.0 then 0.0 else if config.overlap > 0.95 then 0.95 else config.overlap;
    low + i as real * size - size * overlap <= v <= low + (i + 1) as real * size + size * overlap
  }

  lemma HoldsIff(low: real, high: real, config: Config, i: nat, v: real)
    ensures EvenGrid(low, high, config).Holds(i, v) <==> InWidened(config, low, high, i, v)
    ensures config.Intervals() == if config.resolution > 1 then config.resolution else 1
  {
  }

  /** Neighbouring intervals share exactly the band of the overlap around the wall between them. */
  lemma SharedBand(low: real, high: real, config: Config, i: nat, v: real)
    requires low <= high && config.resolution > 1 && 0.0 <= config.overlap <= 0.95
    requires 0 < i < config.resolution
    ensures var size := (high - low) / config.resolution as real; var wall := low + i as real * size;
            wall - size * config.overlap <= v <= wall + size * config.overlap <==>
            EvenGrid(low, high, config).Holds(i - 1, v) && EvenGrid(low, high, config).Holds(i, v)
  {
    var size := (high - low) / config.resolution as real;
    DivideNonNegative(high - low, config.resolution as real);
    ScaleNonNegative(size, config.overlap);
    assert (i + 1) as real * size == i as real * size + size;
    assert (i - 1) as real * size == i as real * size - size;
  }

  lemma DivideNonNegative(a: real, b: real)
    requires a >= 0.0 && b > 0.0
    ensures a / b >= 0.0
  {
  }

  lemma ScaleNonNegative(a: real, b: real)
    requires a >= 0.0 && b >= 0.0
    ensures a * b >= 0.0
  {
  }

  // ---------- one dimension ----------

  ghost predicate IsMin(values: seq<real>, n: nat, m: real)
    requires n <= |values|
  {
    (forall i :: 0 <= i < n ==> m <= values[i]) && exists i :: 0 <= i < n && values[i] == m
  }

  ghost predicate IsMax(values: seq<real>, n: nat, m: real)
    requires n <= |values|
  {
    (forall i :: 0 <= i < n ==> values[i] <= m) && exists i :: 0 <= i < n && values[i] == m
  }

  method Bounds(values: seq<real>, n: nat) returns (low: real, high: real)
    requires 0 < n <= |values|
    ensures IsMin(values, n, low) && IsMax(values, n, high)
  {
    low, high := values[0], values[0];
    for i := 1 to n
      invariant IsMin(values, i, low) && IsMax(values, i, high)
    {
      if values[i] < low { low := values[i]; }
      if values[i] > high { high := values[i]; }
    }
  }

  /** The points whose value lies in interval i. */
  function PointsIn(g: Grid, i: nat, values: seq<real>, n: nat): (s: seq<nat>)
    requires n <= |values|
    ensures forall j: nat :: j in s <==> j < n && g.Holds(i, values[j])
    ensures Increasing(s)
  {
    if n == 0 then []
    else
      var s := PointsIn(g, i, values, n - 1);
      assert forall k :: 0 <= k < |s| ==> s[k] in s;
      if g.Holds(i, values[n - 1]) then s + [n - 1] else s
  }

  /** The nonempty point sets of the first k intervals, in order. */
  ghost function NonEmptySets(g: Grid, k: nat, values: seq<real>, n: nat): (sets: seq<seq<nat>>)
    requires n <= |values|
  {
    if k == 0 then []
    else
      var s := PointsIn(g, k - 1, values, n);
      NonEmptySets(g, k - 1, values, n) + if s != [] then [s] else []
  }

  lemma {:induction false} SetIsListed(g: Grid, k: nat, values: seq<real>, n: nat, i: nat)
    requires n <= |values| && i < k && PointsIn(g, i, values, n) != []
    ensures PointsIn(g, i, values, n) in NonEmptySets(g, k, values, n)
  {
    if i < k - 1 { SetIsListed(g, k - 1, values, n, i); }
  }

  ghost predicate Covered(sets: seq<seq<nat>>, j: nat) {
    exists k :: 0 <= k < |sets| && j in sets[k]
  }

  ghost predicate Covers(sets: seq<seq<nat>>, n: nat) {
    forall j: nat :: j < n ==> Covered(sets, j)
  }

  lemma GridSetsCover(low: real, high: real, config: Config, values: seq<real>, n: nat)
    requires n <= |values| && IsMin(values, n, low) && IsMax(values, n, high)
    ensures Covers(NonEmptySets(EvenGrid(low, high, config), config.Intervals(), values, n), n)
  {
    var g := EvenGrid(low, high, config);
    var sets := NonEmptySets(g, config.Intervals(), values, n);
    forall j: nat | j < n ensures Covered(sets, j) {
      var i := GridCovers(low, high, config, values[j]);
      assert j in PointsIn(g, i, values, n);
      SetIsListed(g, config.Intervals(), values, n, i);
      var k :| 0 <= k < |sets| && sets[k] == PointsIn(g, i, values, n);
    }
  }

  /** One set for a range below tiny, else the nonempty interval sets in order. */
  ghost predicate IntervalCover(config: Config, values: seq<real>, n: nat, cover: seq<seq<nat>>, low: real, high: real)
    requires n <= |values|
  {
    && IsMin(values, n, low) && IsMax(values, n, high)
    && cover == if high - low < config.tiny then [seq(n, i => i)]
                else NonEmptySets(EvenGrid(low, high, config), config.Intervals(), values, n)
  }

  /** Between minimum and maximum: one set for a range below tiny, else the widened intervals. */
  ghost predicate WidenedCover(config: Config, values: seq<real>, n: nat, cover: seq<seq<nat>>, low: real, high: real)
    requires n <= |values|
  {
    && IsMin(values, n, low) && IsMax(values, n, high)
    && if high - low < config.tiny then cover == [seq(n, i => i)]
       else exists idx :: SetsByInterval(config, values, n, cover, low, high, idx)
  }

  /** The listed sets, by interval: set k has exactly the points whose value lies in interval
      idx[k], and an interval that is not listed has no point. */
  ghost predicate SetsByInterval(config: Config, values: seq<real>, n: nat, cover: seq<seq<nat>>, low: real, high: real,
      idx: seq<nat>)
    requires n <= |values|
  {
    && |idx| == |cover| && Increasing(idx)
    && (forall k :: 0 <= k < |idx| ==> idx[k] == 0 || idx[k] < config.resolution)
    && (forall k, j: nat :: 0 <= k < |cover| ==>
          (j in cover[k] <==> j < n && InWidened(config, low, high, idx[k], values[j])))
    && (forall k :: 0 <= k < |cover| ==> Increasing(cover[k]))
    && forall i: nat, j: nat ::
         (i == 0 || i < config.resolution) && j < n && InWidened(config, low, high, i, values[j]) ==> i in idx
  }

  lemma {:induction false} ListedIntervals(g: Grid, values: seq<real>, n: nat, k: nat) returns (idx: seq<nat>)
    requires n <= |values|
    ensures var sets := NonEmptySets(g, k, values, n);
            && |idx| == |sets| && Increasing(idx)
            && (forall l :: 0 <= l < |idx| ==> idx[l] < k && sets[l] == PointsIn(g, idx[l], values, n))
            && forall i: nat :: i < k && PointsIn(g, i, values, n) != [] ==> i in idx
  {
    hide PointsIn;
    idx := [];
    if k > 0 {
      var before := ListedIntervals(g, values, n, k - 1);
      if PointsIn(g, k - 1, values, n) == [] {
        idx := before;
      } else {
        idx := before + [k - 1];
        assert idx[|before|] == k - 1;
        assert forall i :: i in before ==> i in idx;
      }
    }
  }

  lemma CoverByInterval(config: Config, values: seq<real>, n: nat, cover: seq<seq<nat>>, low: real, high: real)
    returns (idx: seq<nat>)
    requires n <= |values| && IntervalCover(config, values, n, cover, low, high) && high - low >= config.tiny
    ensures SetsByInterval(config, values, n, cover, low, high, idx)
  {
    var g := EvenGrid(low, high, config);
    idx := ListedIntervals(g, values, n, config.Intervals());
    forall i: nat, j: nat | j < n ensures g.Holds(i, values[j]) <==> InWidened(config, low, high, i, values[j]) {
      HoldsIff(low, high, config, i, values[j]);
    }
    hide InWidened, EvenGrid, Grid.Holds, IsMin, IsMax;
    forall i: nat, j: nat
      | (i == 0 || i < config.resolution) && j < n && InWidened(config, low, high, i, values[j])
      ensures i in idx
    {
      assert j in PointsIn(g, i, values, n);
    }
  }

  method Build1d(config: Config, values: seq<real>, n: nat) returns (cover: seq<seq<nat>>)
    ensures n == 0 || |values| < n ==> cover == []
    ensures 0 < n <= |values| ==> Covers(cover, n)
    ensures 0 < n <= |values| ==> exists low, high :: IntervalCover(config, values, n, cover, low, high)
    ensures 0 < n <= |values| ==> exists low, high :: WidenedCover(config, values, n, cover, low, high)
  {
    if n == 0 || |values| < n { return []; }
    var low, high := Bounds(values, n);
    if high - low < config.tiny {
      cover := [seq(n, i => i)];
      forall j: nat | j < n ensures Covered(cover, j) {
        assert cover[0][j] == j;
      }
      assert IntervalCover(config, values, n, cover, low, high);
      assert WidenedCover(config, values, n, cover, low, high);
      return;
    }
    var g := EvenGrid(low, high, config);
    cover := [];
    for i := 0 to config.Intervals()
      invariant cover == NonEmptySets(g, i, values, n)
    {
      var points: seq<nat> := [];
      for j := 0 to n
        invariant points == PointsIn(g, i, values, j)
      {
        if g.Holds(i, values[j]) { points := points + [j]; }
      }
      if |points| > 0 { cover := cover + [points]; }
    }
    GridSetsCover(low, high, config, values, n);
    assert IntervalCover(config, values, n, cover, low, high);
    ghost var idx := CoverByInterval(config, values, n, cover, low, high);
    assert WidenedCover(config, values, n, cover, low, high);
  }

  // ---------- several dimensions: memberships ----------

  type Key = seq<nat>

  /** The intervals below k that hold v, in ascending order. */
  function Holding(g: Grid, v: real, k: nat): (s: seq<nat>)
    ensures forall i: nat :: i in s <==> i < k && g.Holds(i, v)
    ensures Increasing(s)
  {
    if k == 0 then []
    else
      var s := Holding(g, v, k - 1);
      assert forall i :: 0 <= i < |s| ==> s[i] in s;
      if g.Holds(k - 1, v) then s + [k - 1] else s
  }

  /** The interval a value outside all intervals would be sent to. */
  function Fallback(g: Grid, v: real, tiny: real): nat
    requires tiny > 0.0 && g.count >= 1
  {
    var width := if g.size > tiny then g.size else tiny;
    var normalized := (v - g.low) / width;
    if normalized >= (g.count - 1) as real then g.count - 1
    else if normalized > 0.0 then (if normalized.Floor >= 0 then normalized.Floor else 0)
    else 0
  }

  /** The memberships of one coordinate: all intervals that hold it, interval 0 when the range is
      not divided, the fallback when no interval holds it. */
  function Memberships(g: Grid, v: real, tiny: real): (s: seq<nat>)
    requires tiny > 0.0 && g.count >= 1
    ensures s != [] && Increasing(s)
  {
    if g.size <= tiny then [0]
    else
      var s := Holding(g, v, g.count);
      if s != [] then s else [Fallback(g, v, tiny)]
  }

  /** Within the divided range the fallback is never taken. */
  lemma FallbackUnused(low: real, high: real, config: Config, v: real)
    requires config.tiny > 0.0 && low <= v <= high && EvenGrid(low, high, config).size > config.tiny
    ensures var g := EvenGrid(low, high, config); Memberships(g, v, config.tiny) == Holding(g, v, g.count)
  {
    var i := GridCovers(low, high, config, v);
    assert i in Holding(EvenGrid(low, high, config), v, config.Intervals());
  }

  // ---------- emission ----------

  /** key extends prefix by one membership for each remaining dimension. */
  ghost predicate Matches(key: Key, prefix: Key, memberships: seq<seq<nat>>, dim: nat)
    requires dim <= |memberships|
  {
    && |prefix| == dim && |key| == |memberships| && key[..dim] == prefix
    && forall d :: dim <= d < |memberships| ==> key[d] in memberships[d]
  }

  type Buckets = map<Key, seq<nat>>

  function At(b: Buckets, key: Key): seq<nat> {
    if key in b then b[key] else []
  }

  /** The point was appended exactly once to each bucket in keys, and nothing else changed. */
  ghost predicate Appended(b: Buckets, b': Buckets, keys: iset<Key>, point: nat) {
    forall key: Key :: At(b', key) == At(b, key) + (if key in keys then [point] else []) &&
      (key in b' <==> key in b || key in keys)
  }

  ghost function MatchingKeys(prefix: Key, memberships: seq<seq<nat>>, dim: nat): (keys: iset<Key>)
    requires dim <= |memberships|
  {
    iset key: Key | Matches(key, prefix, memberships, dim)
  }

  /** Keys that continue with one of the first i memberships of this dimension. */
  ghost function StartedKeys(prefix: Key, memberships: seq<seq<nat>>, dim: nat, i: nat): (keys: iset<Key>)
    requires dim < |memberships| && i <= |memberships[dim]|
  {
    iset key: Key | Matches(key, prefix, memberships, dim) && key[dim] in memberships[dim][..i]
  }

  lemma StartOne(prefix: Key, memberships: seq<seq<nat>>, dim: nat, i: nat)
    requires dim < |memberships| && i < |memberships[dim]| && |prefix| == dim && Increasing(memberships[dim])
    ensures StartedKeys(prefix, memberships, dim, i + 1) ==
            StartedKeys(prefix, memberships, dim, i) +
              MatchingKeys(prefix + [memberships[dim][i]], memberships, dim + 1)
    ensures StartedKeys(prefix, memberships, dim, i)
         !! MatchingKeys(prefix + [memberships[dim][i]], memberships, dim + 1)
  {
    var m := memberships[dim];
    assert m[..i + 1] == m[..i] + [m[i]];
    assert m[i] !in m[..i];
    forall key: Key
      ensures key in MatchingKeys(prefix + [m[i]], memberships, dim + 1) <==>
              Matches(key, prefix, memberships, dim) && key[dim] == m[i]
    {
      if |key| == |memberships| {
        assert key[..dim + 1] == key[..dim] + [key[dim]];
      }
    }
  }

  lemma AppendedTwice(b: Buckets, c: Buckets, d: Buckets, first: iset<Key>, second: iset<Key>, point: nat)
    requires Appended(b, c, first, point) && Appended(c, d, second, point) && first !! second
    ensures Appended(b, d, first + second, point)
  {
  }

  lemma AllStarted(prefix: Key, memberships: seq<seq<nat>>, dim: nat)
    requires dim < |memberships|
    ensures StartedKeys(prefix, memberships, dim, |memberships[dim]|) == MatchingKeys(prefix, memberships, dim)
    ensures StartedKeys(prefix, memberships, dim, 0) == iset{}
  {
    assert memberships[dim][..|memberships[dim]|] == memberships[dim];
  }

  /** Walk all combinations of memberships; the shared key is back to what it was at the end. */
  method Emit(memberships: seq<seq<nat>>, dim: nat, key: Key, buckets: Buckets, point: nat)
    returns (key': Key, buckets': Buckets)
    requires dim <= |memberships| && |key| == dim
    requires forall d :: 0 <= d < |memberships| ==> Increasing(memberships[d])
    ensures key' == key
    ensures Appended(buckets, buckets', MatchingKeys(key, memberships, dim), point)
    decreases |memberships| - dim
  {
    key', buckets' := key, buckets;
    if dim == |memberships| {
      assert forall k: Key :: Matches(k, key, memberships, dim) <==> k == key;
      buckets' := buckets'[key' := At(buckets', key') + [point]];
      return;
    }
    AllStarted(key, memberships, dim);
    hide StartedKeys, MatchingKeys, Appended;
    NothingAppended(buckets, point);
    for i := 0 to |memberships[dim]|
      invariant key' == key
      invariant Appended(buckets, buckets', StartedKeys(key, memberships, dim, i), point)
    {
      ghost var before := buckets';
      key' := key' + [memberships[dim][i]];
      StartOne(key, memberships, dim, i);
      key', buckets' := Emit(memberships, dim + 1, key', buckets', point);
      AppendedTwice(buckets, before, buckets', StartedKeys(key, memberships, dim, i),
                    MatchingKeys(key + [memberships[dim][i]], memberships, dim + 1), point);
      key' := key'[..|key'| - 1];
    }
  }

  lemma NothingAppended(b: Buckets, point: nat)
    ensures Appended(b, b, iset{}, point)
  {
  }

  // ---------- the whole cover ----------

  /** Coordinate d of point i in the flat value array; the methods only read inside it. */
  ghost function Coordinate(values: seq<real>, dims: nat, i: nat, d: nat): real {
    var k := i * dims + d;
    if k < |values| then values[k] else 0.0
  }

  method Read(values: seq<real>, n: nat, dims: nat, i: nat, d: nat) returns (v: real)
    requires i < n && d < dims && n * dims <= |values|
    ensures v == Coordinate(values, dims, i, d)
  {
    FlatIndex(n, dims, i, d);
    v := values[i * dims + d];
  }

  lemma FlatIndex(n: nat, dims: nat, i: nat, d: nat)
    requires i < n && d < dims
    ensures 0 <= i * dims + d < n * dims
  {
    assert (i + 1) * dims <= n * dims;
  }

  ghost function Column(values: seq<real>, n: nat, dims: nat, d: nat): (column: seq<real>)
    ensures |column| == n
  {
    seq(n, i requires 0 <= i < n => Coordinate(values, dims, i, d))
  }

  /** The grid of one dimension; a range that is not above tiny stays undivided. */
  ghost predicate IsGrid(g: Grid, config: Config, column: seq<real>) {
    && g.count == config.Intervals()
    && exists low, high :: IsMin(column, |column|, low) && IsMax(column, |column|, high) && g.low == low &&
         if high - low > config.tiny then g == EvenGrid(low, high, config) else g.size == 0.0 && g.margin == 0.0
  }

  /** The memberships of point i in every dimension. */
  ghost function PointMemberships(grids: seq<Grid>, values: seq<real>, dims: nat, i: nat, tiny: real)
      : (ms: seq<seq<nat>>)
    requires |grids| == dims && tiny > 0.0
    requires forall d :: 0 <= d < dims ==> grids[d].count >= 1
    ensures |ms| == dims
    ensures forall d :: 0 <= d < dims ==> ms[d] != [] && Increasing(ms[d])
  {
    seq(dims, d requires 0 <= d < dims => Memberships(grids[d], Coordinate(values, dims, i, d), tiny))
  }

  /** The points below k whose memberships contain the key, coordinate by coordinate. */
  ghost function PointsOf(key: Key, points: seq<seq<seq<nat>>>, k: nat): (s: seq<nat>)
    requires k <= |points|
    ensures forall i: nat :: i in s <==> i < k && Matches(key, [], points[i], 0)
    ensures Increasing(s)
  {
    if k == 0 then []
    else
      var s := PointsOf(key, points, k - 1);
      assert forall i :: 0 <= i < |s| ==> s[i] in s;
      if Matches(key, [], points[k - 1], 0) then s + [k - 1] else s
  }

  /** The bucket of every key lists exactly the points that belong to it, ascending, and only
      nonempty buckets exist. */
  ghost predicate IsCoverOf(buckets: Buckets, points: seq<seq<seq<nat>>>, k: nat)
    requires k <= |points|
  {
    forall key: Key ::
      At(buckets, key) == PointsOf(key, points, k) && (key in buckets <==> PointsOf(key, points, k) != [])
  }

  lemma CoverNext(buckets: Buckets, after: Buckets, points: seq<seq<seq<nat>>>, k: nat)
    requires k < |points| && IsCoverOf(buckets, points, k)
    requires Appended(buckets, after, MatchingKeys([], points[k], 0), k)
    ensures IsCoverOf(after, points, k + 1)
  {
    forall key: Key ensures key in MatchingKeys([], points[k], 0) <==> Matches(key, [], points[k], 0) {
    }
  }

  /** A point has a bucket as soon as it has a membership in every dimension. */
  lemma NoPointUncovered(buckets: Buckets, points: seq<seq<seq<nat>>>, i: nat)
    requires IsCoverOf(buckets, points, |points|) && i < |points|
    requires forall d :: 0 <= d < |points[i]| ==> points[i][d] != []
    ensures exists key :: key in buckets && i in buckets[key]
  {
    var key := seq(|points[i]|, d requires 0 <= d < |points[i]| => points[i][d][0]);
    assert Matches(key, [], points[i], 0);
    assert i in PointsOf(key, points, |points|);
    assert At(buckets, key) == PointsOf(key, points, |points|);
  }

  // ---------- buckets in key order ----------

  predicate LexLe(a: Key, b: Key) {
    a == [] || (b != [] && (a[0] < b[0] || (a[0] == b[0] && LexLe(a[1..], b[1..]))))
  }

  lemma {:induction false} LexTotal(a: Key, b: Key)
    ensures LexLe(a, b) || LexLe(b, a)
  {
    if a != [] && b != [] { LexTotal(a[1..], b[1..]); }
  }

  lemma {:induction false} LexTransitive(a: Key, b: Key, c: Key)
    requires LexLe(a, b) && LexLe(b, c)
    ensures LexLe(a, c)
  {
    if a != [] && a[0] == b[0] == c[0] { LexTransitive(a[1..], b[1..], c[1..]); }
  }

  method KeysInOrder(buckets: Buckets) returns (keys: seq<Key>)
    ensures SortedBy(keys, LexLe) && Distinct(keys)
    ensures forall key :: key in keys <==> key in buckets
    ensures forall dims: nat :: (forall key :: key in buckets ==> |key| == dims) ==> KeysAscend(keys, dims)
  {
    var left := buckets.Keys;
    var list: seq<Key> := [];
    while left != {}
      invariant left <= buckets.Keys && Distinct(list)
      invariant forall key :: key in buckets.Keys <==> key in left || key in list
      invariant forall key :: key in left ==> key !in list
      decreases left
    {
      var key :| key in left;
      left := left - {key};
      list := list + [key];
    }
    forall x: Key, y: Key ensures LexLe(x, y) || LexLe(y, x) { LexTotal(x, y); }
    forall x: Key, y: Key, z: Key | LexLe(x, y) && LexLe(y, z) ensures LexLe(x, z) { LexTransitive(x, y, z); }
    keys := Sort(list, LexLe);
    RearrangedDistinct(keys, list);
    forall key ensures key in keys <==> key in list {
      assert key in multiset(keys) <==> key in multiset(list);
    }
    forall dims: nat | forall key :: key in buckets ==> |key| == dims ensures KeysAscend(keys, dims) {
      assert forall k :: 0 <= k < |keys| ==> keys[k] in keys;
      forall k, l | 0 <= k < l < |keys| ensures FirstDifference(keys[k], keys[l]) {
        LexDifference(keys[k], keys[l]);
      }
    }
  }

  /** In the first coordinate where they differ, a is smaller. */
  ghost predicate FirstDifference(a: Key, b: Key) {
    exists d :: 0 <= d < |a| && d < |b| && a[..d] == b[..d] && a[d] < b[d]
  }

  ghost predicate KeysAscend(keys: seq<Key>, dims: nat) {
    && (forall k :: 0 <= k < |keys| ==> |keys[k]| == dims)
    && forall k, l :: 0 <= k < l < |keys| ==> FirstDifference(keys[k], keys[l])
  }

  lemma {:induction false} LexDifference(a: Key, b: Key)
    requires LexLe(a, b) && a != b && |a| == |b|
    ensures FirstDifference(a, b)
  {
    if a[0] < b[0] {
      assert a[..0] == b[..0];
    } else {
      assert a == [a[0]] + a[1..] && b == [b[0]] + b[1..];
      LexDifference(a[1..], b[1..]);
      var d :| 0 <= d < |a| - 1 && a[1..][..d] == b[1..][..d] && a[1..][d] < b[1..][d];
      assert a[..d + 1] == [a[0]] + a[1..][..d] && b[..d + 1] == [b[0]] + b[1..][..d];
      assert a[d + 1] < b[d + 1];
    }
  }

  /** The grid of one coordinate of the points. */
  method CoordinateGrid(config: Config, values: seq<real>, n: nat, dims: nat, d: nat) returns (g: Grid)
    requires d < dims && 0 < n && n * dims <= |values|
    ensures IsGrid(g, config, Column(values, n, dims, d))
  {
    ghost var column := Column(values, n, dims, d);
    hide Coordinate;
    var low := Read(values, n, dims, 0, d);
    var high := low;
    assert low == column[0];
    for i := 1 to n
      invariant IsMin(column, i, low) && IsMax(column, i, high)
    {
      var v := Read(values, n, dims, i, d);
      assert v == column[i];
      if v < low { low := v; }
      if v > high { high := v; }
    }
    g := if high - low > config.tiny then EvenGrid(low, high, config) else Grid(low, 0.0, 0.0, config.Intervals());
  }

  method PointLists(grids: seq<Grid>, values: seq<real>, n: nat, dims: nat, i: nat, tiny: real)
    returns (ms: seq<seq<nat>>)
    requires |grids| == dims && i < n && n * dims <= |values| && tiny > 0.0
    requires forall d :: 0 <= d < dims ==> grids[d].count >= 1
    ensures ms == PointMemberships(grids, values, dims, i, tiny)
  {
    hide Coordinate, Memberships;
    ms := [];
    for d := 0 to dims
      invariant |ms| == d && ms == PointMemberships(grids, values, dims, i, tiny)[..d]
    {
      var v := Read(values, n, dims, i, d);
      ms := ms + [Memberships(grids[d], v, tiny)];
    }
  }

  /** What the several-dimensional cover promises. */
  ghost predicate IsNdCover(config: Config, values: seq<real>, n: nat, dims: nat, cover: seq<seq<nat>>,
      grids: seq<Grid>, points: seq<seq<seq<nat>>>, keys: seq<Key>)
    requires n * dims <= |values| && config.tiny > 0.0
  {
    && |grids| == dims && (forall d :: 0 <= d < dims ==> IsGrid(grids[d], config, Column(values, n, dims, d)))
    && |points| == n
    && (forall i :: 0 <= i < n ==> points[i] == PointMemberships(grids, values, dims, i, config.tiny))
    && KeysAscend(keys, dims) && |cover| == |keys|
    && (forall key: Key :: key in keys <==> PointsOf(key, points, n) != [])
    && (forall k :: 0 <= k < |keys| ==> cover[k] == PointsOf(keys[k], points, n))
    && Covers(cover, n)
  }

  method BuildNd(config: Config, values: seq<real>, n: nat, dims: int)
    returns (cover: seq<seq<nat>>, ghost grids: seq<Grid>, ghost points: seq<seq<seq<nat>>>, ghost keys: seq<Key>)
    requires config.tiny > 0.0
    ensures dims <= 1 && (n == 0 || |values| < n) ==> cover == []
    ensures dims <= 1 && 0 < n <= |values| ==>
              Covers(cover, n) && exists low, high :: WidenedCover(config, values, n, cover, low, high)
    ensures dims > 1 && (n == 0 || |values| < n * dims) ==> cover == []
    ensures dims > 1 && 0 < n && n * dims <= |values| ==>
              IsNdCover(config, values, n, dims, cover, grids, points, keys)
    ensures dims > 1 && 0 < n && n * dims <= |values| ==>
              forall i: nat, key: Key {:trigger InBucket(keys, cover, key, i)} :: i < n ==>
                (InBucket(keys, cover, key, i) <==> InWidenedKey(config, values, n, dims, key, i))
  {
    grids, points, keys := [], [], [];
    if dims <= 1 {
      cover := Build1d(config, values, n);
      return;
    }
    if n == 0 || |values| < n * dims { return [], [], [], []; }
    cover, grids, points, keys := BuildBuckets(config, values, n, dims);
    hide *;
    AllBucketsWidened(config, values, n, dims, cover, grids, points, keys);
  }

  /** The cover of two or more dimensions. */
  method BuildBuckets(config: Config, values: seq<real>, n: nat, dims: nat)
    returns (cover: seq<seq<nat>>, ghost grids: seq<Grid>, ghost points: seq<seq<seq<nat>>>, ghost keys: seq<Key>)
    requires config.tiny > 0.0 && 0 < n && n * dims <= |values|
    ensures IsNdCover(config, values, n, dims, cover, grids, points, keys)
  {
    var gs: seq<Grid> := [];
    for d := 0 to dims
      invariant |gs| == d && forall e :: 0 <= e < d ==> IsGrid(gs[e], config, Column(values, n, dims, e))
    {
      var g := CoordinateGrid(config, values, n, dims, d);
      gs := gs + [g];
    }
    grids := gs;
    hide IsGrid, Covers, Memberships, Coordinate, Column, IsCoverOf, KeysAscend, SortedBy, LexLe, Distinct, PointsOf;
    var buckets;
    buckets, points := FillBuckets(gs, values, n, dims, config.tiny);
    KeyLengths(buckets, points, dims);
    var order := KeysInOrder(buckets);
    keys := order;
    cover := seq(|order|, k requires 0 <= k < |order| => At(buckets, order[k]));
    ListedCover(buckets, points, order, cover);
  }

  lemma AllBucketsWidened(config: Config, values: seq<real>, n: nat, dims: nat, cover: seq<seq<nat>>, grids: seq<Grid>,
      points: seq<seq<seq<nat>>>, keys: seq<Key>)
    requires n * dims <= |values| && config.tiny > 0.0
    requires IsNdCover(config, values, n, dims, cover, grids, points, keys)
    ensures forall i: nat, key: Key {:trigger InBucket(keys, cover, key, i)} :: i < n ==>
              (InBucket(keys, cover, key, i) <==> InWidenedKey(config, values, n, dims, key, i))
  {
    hide *;
    NdGrids(config, values, n, dims, cover, grids, points, keys);
    forall i: nat, key: Key | i < n
      ensures InBucket(keys, cover, key, i) <==> InWidenedKey(config, values, n, dims, key, i)
    {
      BucketsAreIntervals(config, values, n, dims, cover, grids, points, keys, key, i);
      KeysAreWidened(config, values, n, dims, grids, key, i);
    }
  }

  lemma KeyLengths(buckets: Buckets, points: seq<seq<seq<nat>>>, dims: nat)
    requires IsCoverOf(buckets, points, |points|) && forall i :: 0 <= i < |points| ==> |points[i]| == dims
    ensures forall key :: key in buckets ==> |key| == dims
  {
    forall key | key in buckets ensures |key| == dims {
      var s := PointsOf(key, points, |points|);
      assert s[0] in s;
    }
  }

  /** The smallest and largest value of a nonempty column. */
  ghost predicate Spans(column: seq<real>, low: real, high: real) {
    IsMin(column, |column|, low) && IsMax(column, |column|, high)
  }

  /** v has key x in a column: in a range that is divided it lies in the widened interval x, else x
      is 0.  The range is divided when it and its parts are larger than tiny. */
  ghost predicate HasPlace(config: Config, column: seq<real>, v: real, x: nat) {
    exists low, high :: Spans(column, low, high) &&
      var parts := if config.resolution > 1 then config.resolution else 1;
      if high - low > config.tiny && (high - low) / parts as real > config.tiny then
        x < parts && InWidened(config, low, high, x, v)
      else x == 0
  }

  /** In every dimension the key names a place of the point. */
  ghost predicate InWidenedKey(config: Config, values: seq<real>, n: nat, dims: nat, key: Key, i: nat) {
    |key| == dims && forall d :: 0 <= d < dims ==>
      HasPlace(config, Column(values, n, dims, d), Coordinate(values, dims, i, d), key[d])
  }

  lemma GridIsPlace(config: Config, column: seq<real>, g: Grid, v: real, x: nat)
    requires config.tiny > 0.0 && IsGrid(g, config, column)
    ensures HasPlace(config, column, v, x) <==>
            if g.size > config.tiny then x < g.count && g.Holds(x, v) else x == 0
  {
    var low, high :| IsMin(column, |column|, low) && IsMax(column, |column|, high) && g.low == low &&
      if high - low > config.tiny then g == EvenGrid(low, high, config) else g.size == 0.0 && g.margin == 0.0;
    assert Spans(column, low, high);
    forall a, b | Spans(column, a, b) ensures a == low && b == high {
    }
    HoldsIff(low, high, config, x, v);
    hide InWidened, Grid.Holds, Spans;
  }

  lemma KeysAreWidened(config: Config, values: seq<real>, n: nat, dims: nat, grids: seq<Grid>, key: Key, i: nat)
    requires config.tiny > 0.0 && |grids| == dims
    requires forall d :: 0 <= d < dims ==> IsGrid(grids[d], config, Column(values, n, dims, d))
    ensures InIntervals(config, values, dims, grids, key, i) <==> InWidenedKey(config, values, n, dims, key, i)
  {
    hide IsGrid, HasPlace, Coordinate, Column, Grid.Holds;
    if |key| == dims {
      forall d | 0 <= d < dims
        ensures HasPlace(config, Column(values, n, dims, d), Coordinate(values, dims, i, d), key[d]) <==>
                if grids[d].size > config.tiny then
                  key[d] < grids[d].count && grids[d].Holds(key[d], Coordinate(values, dims, i, d))
                else key[d] == 0
      {
        GridIsPlace(config, Column(values, n, dims, d), grids[d], Coordinate(values, dims, i, d), key[d]);
      }
    }
  }

  /** A point lies in two buckets that differ by one step in a divided dimension exactly when it
      lies in both otherwise, and its value in the band of the overlap around the wall between. */
  lemma SharedBuckets(config: Config, values: seq<real>, n: nat, dims: nat, cover: seq<seq<nat>>, grids: seq<Grid>,
      points: seq<seq<seq<nat>>>, keys: seq<Key>, key: Key, i: nat, d: nat, low: real, high: real)
    requires n * dims <= |values| && config.tiny > 0.0 && i < n && d < dims == |key|
    requires IsNdCover(config, values, n, dims, cover, grids, points, keys)
    requires Spans(Column(values, n, dims, d), low, high) && grids[d].size > config.tiny
    requires config.resolution > 1 && 0.0 <= config.overlap <= 0.95 && 0 < key[d] < config.resolution
    ensures var size := (high - low) / config.resolution as real; var wall := low + key[d] as real * size;
            var v := Coordinate(values, dims, i, d);
            var here := InBucket(keys, cover, key, i);
            var there := InBucket(keys, cover, key[d := key[d] - 1], i);
            here && there <==> (here || there) && wall - size * config.overlap <= v <= wall + size * config.overlap
  {
    hide *;
    NdGrids(config, values, n, dims, cover, grids, points, keys);
    BucketsAreIntervals(config, values, n, dims, cover, grids, points, keys, key, i);
    BucketsAreIntervals(config, values, n, dims, cover, grids, points, keys, key[d := key[d] - 1], i);
    BandInGrid(config, Column(values, n, dims, d), grids[d], low, high, key[d], Coordinate(values, dims, i, d));
    StepInKey(config, values, dims, grids, key, i, d);
  }

  lemma NdGrids(config: Config, values: seq<real>, n: nat, dims: nat, cover: seq<seq<nat>>, grids: seq<Grid>,
      points: seq<seq<seq<nat>>>, keys: seq<Key>)
    requires n * dims <= |values| && config.tiny > 0.0
    requires IsNdCover(config, values, n, dims, cover, grids, points, keys)
    ensures |grids| == dims && forall d :: 0 <= d < dims ==> IsGrid(grids[d], config, Column(values, n, dims, d))
  {
  }

  lemma BandInGrid(config: Config, column: seq<real>, g: Grid, low: real, high: real, x: nat, v: real)
    requires config.tiny > 0.0 && IsGrid(g, config, column) && g.size > config.tiny && Spans(column, low, high)
    requires config.resolution > 1 && 0.0 <= config.overlap <= 0.95 && 0 < x < config.resolution
    ensures g.count == config.resolution
    ensures var size := (high - low) / config.resolution as real; var wall := low + x as real * size;
            wall - size * config.overlap <= v <= wall + size * config.overlap <==> g.Holds(x - 1, v) && g.Holds(x, v)
  {
    DividedGrid(config, column, g, low, high);
    hide *;
    SharedBand(low, high, config, x, v);
  }

  /** Two keys that differ by one step in a divided dimension agree everywhere else. */
  lemma StepInKey(config: Config, values: seq<real>, dims: nat, grids: seq<Grid>, key: Key, i: nat, d: nat)
    requires d < dims == |key| == |grids| && grids[d].size > config.tiny && 0 < key[d] < grids[d].count
    ensures var here := InIntervals(config, values, dims, grids, key, i);
            var there := InIntervals(config, values, dims, grids, key[d := key[d] - 1], i);
            var v := Coordinate(values, dims, i, d);
            here && there <==> (here || there) && grids[d].Holds(key[d] - 1, v) && grids[d].Holds(key[d], v)
  {
    hide Grid.Holds, Coordinate;
    var before := key[d := key[d] - 1];
    assert forall e :: 0 <= e < dims && e != d ==> before[e] == key[e];
  }

  lemma DividedGrid(config: Config, column: seq<real>, g: Grid, low: real, high: real)
    requires config.tiny > 0.0 && IsGrid(g, config, column) && g.size > config.tiny && Spans(column, low, high)
    ensures g == EvenGrid(low, high, config) && low <= high
    ensures g.count == config.Intervals() == if config.resolution > 1 then config.resolution else 1
  {
  }

  /** The bucket of the key lists the point. */
  ghost predicate InBucket(keys: seq<Key>, cover: seq<seq<nat>>, key: Key, i: nat) {
    exists k :: 0 <= k < |keys| && k < |cover| && keys[k] == key && i in cover[k]
  }

  /** In every divided dimension the value lies in the interval the key names; in an undivided one
      the key is 0. */
  ghost predicate InIntervals(config: Config, values: seq<real>, dims: nat, grids: seq<Grid>, key: Key, i: nat) {
    && |key| == |grids| == dims
    && forall d :: 0 <= d < dims ==>
         if grids[d].size > config.tiny then
           key[d] < grids[d].count && grids[d].Holds(key[d], Coordinate(values, dims, i, d))
         else key[d] == 0
  }

  /** The memberships of a value of the column are its intervals; no fallback. */
  lemma MembershipsAreIntervals(config: Config, column: seq<real>, g: Grid, i: nat)
    requires config.tiny > 0.0 && i < |column| && IsGrid(g, config, column) && g.size > config.tiny
    ensures g.count >= 1 && Memberships(g, column[i], config.tiny) == Holding(g, column[i], g.count)
  {
    var low, high :| IsMin(column, |column|, low) && IsMax(column, |column|, high) && g == EvenGrid(low, high, config);
    FallbackUnused(low, high, config, column[i]);
  }

  /** A point is in bucket K exactly when its value lies in interval K_d of every divided
      dimension d. */
  lemma BucketsAreIntervals(config: Config, values: seq<real>, n: nat, dims: nat, cover: seq<seq<nat>>,
      grids: seq<Grid>, points: seq<seq<seq<nat>>>, keys: seq<Key>, key: Key, i: nat)
    requires n * dims <= |values| && config.tiny > 0.0 && i < n
    requires IsNdCover(config, values, n, dims, cover, grids, points, keys)
    ensures InBucket(keys, cover, key, i) <==> InIntervals(config, values, dims, grids, key, i)
  {
    BucketsMatch(config, values, n, dims, cover, grids, points, keys, key, i);
    forall d: nat, x: nat | d < dims
      ensures x in points[i][d] <==>
                if grids[d].size > config.tiny then
                  x < grids[d].count && grids[d].Holds(x, Coordinate(values, dims, i, d))
                else x == 0
    {
      var column := Column(values, n, dims, d);
      assert IsGrid(grids[d], config, column) && column[i] == Coordinate(values, dims, i, d);
      if grids[d].size > config.tiny {
        MembershipsAreIntervals(config, column, grids[d], i);
      }
    }
  }

  lemma BucketsMatch(config: Config, values: seq<real>, n: nat, dims: nat, cover: seq<seq<nat>>,
      grids: seq<Grid>, points: seq<seq<seq<nat>>>, keys: seq<Key>, key: Key, i: nat)
    requires n * dims <= |values| && config.tiny > 0.0 && i < n
    requires IsNdCover(config, values, n, dims, cover, grids, points, keys)
    ensures InBucket(keys, cover, key, i) <==> Matches(key, [], points[i], 0)
  {
    hide Matches, IsGrid, Memberships, Covers;
    if Matches(key, [], points[i], 0) {
      assert i in PointsOf(key, points, n) && key in keys;
      var k :| 0 <= k < |keys| && keys[k] == key;
      assert i in cover[k];
    }
  }

  method FillBuckets(grids: seq<Grid>, values: seq<real>, n: nat, dims: nat, tiny: real)
    returns (buckets: Buckets, ghost points: seq<seq<seq<nat>>>)
    requires |grids| == dims && n * dims <= |values| && tiny > 0.0
    requires forall d :: 0 <= d < dims ==> grids[d].count >= 1
    ensures |points| == n && IsCoverOf(buckets, points, n)
    ensures forall i :: 0 <= i < n ==> points[i] == PointMemberships(grids, values, dims, i, tiny)
  {
    buckets, points := map[], [];
    hide IsCoverOf, Appended, Memberships, Coordinate, MatchingKeys;
    NoPointsYet();
    for i := 0 to n
      invariant |points| == i && IsCoverOf(buckets, points, i)
      invariant forall k :: 0 <= k < i ==> points[k] == PointMemberships(grids, values, dims, k, tiny)
    {
      var memberships := PointLists(grids, values, n, dims, i, tiny);
      ghost var before := buckets;
      var key;
      key, buckets := Emit(memberships, 0, [], buckets, i);
      MorePoints(before, points, memberships);
      points := points + [memberships];
      CoverNext(before, buckets, points, i);
    }
  }

  lemma NoPointsYet()
    ensures IsCoverOf(map[], [], 0)
  {
  }

  lemma {:induction false} PointsOfPrefix(key: Key, points: seq<seq<seq<nat>>>, m: seq<seq<nat>>, k: nat)
    requires k <= |points|
    ensures PointsOf(key, points + [m], k) == PointsOf(key, points, k)
  {
    if k > 0 { PointsOfPrefix(key, points, m, k - 1); }
  }

  lemma MorePoints(buckets: Buckets, points: seq<seq<seq<nat>>>, m: seq<seq<nat>>)
    requires IsCoverOf(buckets, points, |points|)
    ensures IsCoverOf(buckets, points + [m], |points|)
  {
    forall key: Key ensures PointsOf(key, points + [m], |points|) == PointsOf(key, points, |points|) {
      PointsOfPrefix(key, points, m, |points|);
    }
  }

  lemma ListedCover(buckets: Buckets, points: seq<seq<seq<nat>>>, keys: seq<Key>, cover: seq<seq<nat>>)
    requires IsCoverOf(buckets, points, |points|) && |cover| == |keys|
    requires forall key :: key in keys <==> key in buckets
    requires forall k :: 0 <= k < |keys| ==> cover[k] == At(buckets, keys[k])
    requires forall i, d :: 0 <= i < |points| && 0 <= d < |points[i]| ==> points[i][d] != []
    ensures forall k :: 0 <= k < |keys| ==> cover[k] == PointsOf(keys[k], points, |points|)
    ensures forall key: Key :: key in keys <==> PointsOf(key, points, |points|) != []
    ensures Covers(cover, |points|)
  {
    forall i: nat | i < |points| ensures Covered(cover, i) {
      NoPointUncovered(buckets, points, i);
      var key :| key in buckets && i in buckets[key];
      var k :| 0 <= k < |keys| && keys[k] == key;
      assert cover[k] == buckets[key];
    }
  }
}
