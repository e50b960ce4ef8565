/** The Betti curve by an event sweep, against the direct count of living bars. */
module BettiCurve {
  import opened Sorting
  import opened Landscape

  type Event = (real, int)

  /** Bars alive at x: born by then and not yet dead. */
  ghost function Alive(diagram: seq<(real, Death)>, x: real): nat {
    if diagram == [] then 0
    else
      var (b, d) := diagram[|diagram| - 1];
      Alive(diagram[..|diagram| - 1], x) + if b <= x && (d.At? ==> x < d.time) then 1 else 0
  }

  /** Bars that have died by x without having been born: only reversed bars. */
  ghost function Reversed(diagram: seq<(real, Death)>, x: real): nat {
    if diagram == [] then 0
    else
      var (b, d) := diagram[|diagram| - 1];
      Reversed(diagram[..|diagram| - 1], x) + if d.At? && d.time <= x < b then 1 else 0
  }

  ghost predicate BirthsFirst(diagram: seq<(real, Death)>) {
    forall i :: 0 <= i < |diagram| ==> diagram[i].1.At? ==> diagram[i].0 <= diagram[i].1.time
  }

  // ---------- events ----------

  function EventsOf(diagram: seq<(real, Death)>): (events: seq<Event>) {
    if diagram == [] then []
    else
      var (b, d) := diagram[|diagram| - 1];
      EventsOf(diagram[..|diagram| - 1]) + [(b, 1)] + if d.At? then [(d.time, -1)] else []
  }

  /** The sum of the changes up to and including time x. */
  ghost function NetAt(events: seq<Event>, x: real): int {
    if events == [] then 0
    else NetAt(events[..|events| - 1], x) + if events[|events| - 1].0 <= x then events[|events| - 1].1 else 0
  }

  lemma NetSnoc(events: seq<Event>, e: Event, x: real)
    ensures NetAt(events + [e], x) == NetAt(events, x) + if e.0 <= x then e.1 else 0
  {
    assert (events + [e])[..|events|] == events;
  }

  lemma {:induction false} NetAppend(a: seq<Event>, b: seq<Event>, x: real)
    ensures NetAt(a + b, x) == NetAt(a, x) + NetAt(b, x)
  {
    if b == [] {
      assert a + b == a;
    } else {
      var last := |b| - 1;
      NetAppend(a, b[..last], x);
      assert a + b == (a + b[..last]) + [b[last]];
      NetSnoc(a + b[..last], b[last], x);
    }
  }

  /** The sweep counts the living bars, less those that die before they are born. */
  lemma {:induction false} NetIsAlive(diagram: seq<(real, Death)>, x: real)
    ensures NetAt(EventsOf(diagram), x) == Alive(diagram, x) - Reversed(diagram, x)
  {
    if diagram != [] {
      var last := |diagram| - 1;
      var (b, d) := diagram[last];
      NetIsAlive(diagram[..last], x);
      NetSnoc(EventsOf(diagram[..last]), (b, 1), x);
      if d.At? {
        NetSnoc(EventsOf(diagram[..last]) + [(b, 1)], (d.time, -1), x);
      } else {
        assert EventsOf(diagram) == EventsOf(diagram[..last]) + [(b, 1)];
      }
    }
  }

  lemma {:induction false} NothingReversed(diagram: seq<(real, Death)>, x: real)
    requires BirthsFirst(diagram)
    ensures Reversed(diagram, x) == 0
  {
    if diagram != [] {
      NothingReversed(diagram[..|diagram| - 1], x);
      assert diagram[|diagram| - 1] == diagram[|diagram| - 1];
    }
  }

  lemma NetExtract(b: seq<Event>, i: nat, x: real)
    requires i < |b|
    ensures NetAt(b, x) == NetAt(b[..i] + b[i + 1..], x) + if b[i].0 <= x then b[i].1 else 0
  {
    assert b == b[..i] + [b[i]] + b[i + 1..];
    NetAppend(b[..i], b[i + 1..], x);
    NetAppend(b[..i] + [b[i]], b[i + 1..], x);
    NetSnoc(b[..i], b[i], x);
  }

  lemma {:induction false} NetRearranged(a: seq<Event>, b: seq<Event>, x: real)
    requires multiset(a) == multiset(b)
    ensures NetAt(a, x) == NetAt(b, x)
    decreases |a|
  {
    if a == [] {
      assert |b| == |multiset(b)| == 0;
    } else {
      var i := DropOne(a, b);
      hide NetAt;
      NetRearranged(a[..|a| - 1], b[..i] + b[i + 1..], x);
      NetExtract(b, i, x);
      assert a == a[..|a| - 1] + [a[|a| - 1]];
      NetSnoc(a[..|a| - 1], a[|a| - 1], x);
    }
  }

  // ---------- the sweep ----------

  ghost predicate TimeSorted(events: seq<Event>) {
    forall i, j :: 0 <= i < j < |events| ==> events[i].0 <= events[j].0
  }

  /** The running count over the first i events. */
  ghost function Running(events: seq<Event>, i: nat): int
    requires i <= |events|
  {
    if i == 0 then 0 else Running(events, i - 1) + events[i - 1].1
  }

  /** Where the events after the first i are later than x and those before are not, the running
      count is the net change at x. */
  lemma {:induction false} RunningIsNet(events: seq<Event>, i: nat, x: real)
    requires i <= |events|
    requires forall k :: 0 <= k < i ==> events[k].0 <= x
    requires forall k :: i <= k < |events| ==> events[k].0 > x
    ensures Running(events, i) == NetAt(events, x)
  {
    PrefixNet(events, i, x);
    SuffixNet(events[i..], x);
    NetAppend(events[..i], events[i..], x);
    assert events == events[..i] + events[i..];
  }

  lemma {:induction false} PrefixNet(events: seq<Event>, i: nat, x: real)
    requires i <= |events| && forall k :: 0 <= k < i ==> events[k].0 <= x
    ensures Running(events, i) == NetAt(events[..i], x)
  {
    if i > 0 {
      PrefixNet(events, i - 1, x);
      assert events[..i] == events[..i - 1] + [events[i - 1]];
    }
  }

  lemma {:induction false} SuffixNet(events: seq<Event>, x: real)
    requires forall k :: 0 <= k < |events| ==> events[k].0 > x
    ensures NetAt(events, x) == 0
  {
    if events != [] { SuffixNet(events[..|events| - 1], x); }
  }

  ghost predicate IsTime(events: seq<Event>, x: real) {
    exists k :: 0 <= k < |events| && events[k].0 == x
  }

  /** x is the last event time of its merge group: no event follows within the tolerance. */
  ghost predicate EndsGroup(events: seq<Event>, x: real, tolerance: real) {
    IsTime(events, x) && forall k :: 0 <= k < |events| ==> !(x < events[k].0 <= x + tolerance)
  }

  /** The curve emitted before event i is reached. */
  ghost predicate Swept(events: seq<Event>, tolerance: real, i: nat, curve: seq<Event>)
    requires 0 < i <= |events|
  {
    && (forall p :: 0 <= p < |curve| ==> curve[p].1 == NetAt(events, curve[p].0))
    && (forall p :: 0 <= p < |curve| ==> EndsGroup(events, curve[p].0, tolerance) && curve[p].0 < events[i - 1].0)
    && (forall p, q :: 0 <= p < q < |curve| ==> curve[p].0 < curve[q].0)
    && (forall k :: 0 <= k < i && events[k].0 < events[i - 1].0 && EndsGroup(events, events[k].0, tolerance) ==>
          exists p :: 0 <= p < |curve| && curve[p].0 == events[k].0)
  }

  lemma AtGap(events: seq<Event>, tolerance: real, i: nat)
    requires TimeSorted(events) && tolerance >= 0.0 && 0 < i < |events|
    requires events[i].0 > events[i - 1].0 + tolerance
    ensures Running(events, i) == NetAt(events, events[i - 1].0)
    ensures EndsGroup(events, events[i - 1].0, tolerance) && events[i - 1].0 < events[i].0
    ensures forall k :: 0 <= k <= i && events[k].0 < events[i].0 ==> k < i && events[k].0 <= events[i - 1].0
  {
    RunningIsNet(events, i, events[i - 1].0);
  }

  /** The points due before the next event are those due before plus the one emitted now. */
  lemma EmitOne(events: seq<Event>, tolerance: real, i: nat, curve: seq<Event>, e: Event)
    requires 0 < i < |events| && Swept(events, tolerance, i, curve) && e.0 == events[i - 1].0
    requires forall k :: 0 <= k <= i && events[k].0 < events[i].0 ==> k < i && events[k].0 <= events[i - 1].0
    ensures forall k :: 0 <= k < i + 1 && events[k].0 < events[i].0 && EndsGroup(events, events[k].0, tolerance) ==>
              exists p :: 0 <= p < |curve + [e]| && (curve + [e])[p].0 == events[k].0
  {
    hide NetAt;
    var longer := curve + [e];
    forall k | 0 <= k < i + 1 && events[k].0 < events[i].0 && EndsGroup(events, events[k].0, tolerance)
      ensures exists p :: 0 <= p < |longer| && longer[p].0 == events[k].0
    {
      hide EndsGroup;
      if events[k].0 < e.0 {
        var p :| 0 <= p < |curve| && curve[p].0 == events[k].0;
        assert longer[p].0 == events[k].0;
      } else {
        assert longer[|curve|].0 == events[k].0;
      }
    }
  }

  /** Emitting at a gap: the count is exact there and the point was due. */
  lemma EmitAtGap(events: seq<Event>, tolerance: real, i: nat, curve: seq<Event>)
    requires TimeSorted(events) && tolerance >= 0.0 && 0 < i < |events| && Swept(events, tolerance, i, curve)
    requires events[i].0 > events[i - 1].0 + tolerance
    ensures Swept(events, tolerance, i + 1, curve + [(events[i - 1].0, Running(events, i))])
  {
    hide EndsGroup, NetAt, Running, TimeSorted;
    AtGap(events, tolerance, i);
    EmitOne(events, tolerance, i, curve, (events[i - 1].0, Running(events, i)));
  }

  /** No gap: nothing is due. */
  lemma SkipMerge(events: seq<Event>, tolerance: real, i: nat, curve: seq<Event>)
    requires TimeSorted(events) && tolerance >= 0.0 && 0 < i < |events| && Swept(events, tolerance, i, curve)
    requires events[i].0 <= events[i - 1].0 + tolerance
    ensures Swept(events, tolerance, i + 1, curve)
  {
    forall k | 0 <= k < i + 1 && events[k].0 < events[i].0 && EndsGroup(events, events[k].0, tolerance)
      ensures exists p :: 0 <= p < |curve| && curve[p].0 == events[k].0
    {
      assert events[k].0 < events[i - 1].0 by {
        assert k < i;
        assert !(events[k].0 < events[i].0 <= events[k].0 + tolerance);
      }
    }
  }

  /** The promised curve: at the end of each merge group, the number of living bars. */
  ghost predicate IsCurve(diagram: seq<(real, Death)>, tolerance: real, curve: seq<Event>) {
    && (forall p :: 0 <= p < |curve| ==>
          curve[p].1 == Alive(diagram, curve[p].0) - Reversed(diagram, curve[p].0))
    && (forall p, q :: 0 <= p < q < |curve| ==> curve[p].0 < curve[q].0)
    && (forall p :: 0 <= p < |curve| ==> EndsGroup(EventsOf(diagram), curve[p].0, tolerance))
    && (forall x :: EndsGroup(EventsOf(diagram), x, tolerance) ==> exists p :: 0 <= p < |curve| && curve[p].0 == x)
  }

  predicate EventLe(a: Event, b: Event) {
    a.0 < b.0 || (a.0 == b.0 && a.1 <= b.1)
  }

  method SortEvents(events: seq<Event>) returns (sorted: seq<Event>)
    ensures multiset(sorted) == multiset(events) && TimeSorted(sorted)
  {
    sorted := Sort(events, EventLe);
    forall i, j | 0 <= i < j < |sorted| ensures sorted[i].0 <= sorted[j].0 {
      assert EventLe(sorted[i], sorted[j]);
    }
  }

  method CollectEvents(diagram: seq<(real, Death)>) returns (events: seq<Event>)
    ensures events == EventsOf(diagram)
  {
    events := [];
    for i := 0 to |diagram|
      invariant events == EventsOf(diagram[..i])
    {
      assert diagram[..i + 1][..i] == diagram[..i];
      var (b, d) := diagram[i];
      events := events + [(b, 1)];
      if d.At? {
        events := events + [(d.time, -1)];
      } else {
        assert events + [] == events;
      }
    }
    assert diagram[..|diagram|] == diagram;
  }

  method Sweep(events: seq<Event>, tolerance: real) returns (curve: seq<Event>)
    requires TimeSorted(events) && tolerance >= 0.0 && events != []
    ensures forall p :: 0 <= p < |curve| ==> curve[p].1 == NetAt(events, curve[p].0)
    ensures forall p, q :: 0 <= p < q < |curve| ==> curve[p].0 < curve[q].0
    ensures forall p :: 0 <= p < |curve| ==> EndsGroup(events, curve[p].0, tolerance)
    ensures forall x :: EndsGroup(events, x, tolerance) ==> exists p :: 0 <= p < |curve| && curve[p].0 == x
  {
    curve := [];
    var count := 0;
    var prev := events[0].0;
    for i := 0 to |events|
      invariant count == Running(events, i)
      invariant prev == events[if i == 0 then 0 else i - 1].0
      invariant if i == 0 then curve == [] else Swept(events, tolerance, i, curve)
    {
      var (x, delta) := events[i];
      if i > 0 {
        if x > prev + tolerance {
          EmitAtGap(events, tolerance, i, curve);
        } else {
          SkipMerge(events, tolerance, i, curve);
        }
      }
      hide Swept, TimeSorted;
      if x > prev + tolerance {
        curve := curve + [(prev, count)];
      } else if i == 0 {
        FirstEvent(events, tolerance);
      }
      count := count + delta;
      prev := x;
    }
    LastPoint(events, tolerance, curve);
    curve := curve + [(prev, count)];
  }

  lemma FirstEvent(events: seq<Event>, tolerance: real)
    requires events != [] && tolerance >= 0.0
    ensures Swept(events, tolerance, 1, [])
  {
  }

  lemma LastPoint(events: seq<Event>, tolerance: real, curve: seq<Event>)
    requires TimeSorted(events) && tolerance >= 0.0 && events != [] && Swept(events, tolerance, |events|, curve)
    ensures var m := |events|; var longer := curve + [(events[m - 1].0, Running(events, m))];
            && (forall p :: 0 <= p < |longer| ==> longer[p].1 == NetAt(events, longer[p].0))
            && (forall p, q :: 0 <= p < q < |longer| ==> longer[p].0 < longer[q].0)
            && (forall p :: 0 <= p < |longer| ==> EndsGroup(events, longer[p].0, tolerance))
            && (forall x :: EndsGroup(events, x, tolerance) ==> exists p :: 0 <= p < |longer| && longer[p].0 == x)
  {
    var m := |events|;
    var x := events[m - 1].0;
    var longer := curve + [(x, Running(events, m))];
    RunningIsNet(events, m, x);
    assert longer[|curve|] == (x, Running(events, m));
    assert EndsGroup(events, x, tolerance);
    forall y | EndsGroup(events, y, tolerance) ensures exists p :: 0 <= p < |longer| && longer[p].0 == y {
      var k :| 0 <= k < m && events[k].0 == y;
      if y < x {
        var p :| 0 <= p < |curve| && curve[p].0 == y;
        assert longer[p].0 == y;
      } else {
        assert longer[|curve|].0 == y;
      }
    }
  }

  /** Sorting the events does not change which times end a group. */
  lemma GroupsRearranged(a: seq<Event>, b: seq<Event>, x: real, tolerance: real)
    requires multiset(a) == multiset(b)
    ensures EndsGroup(a, x, tolerance) ==> EndsGroup(b, x, tolerance)
  {
    if EndsGroup(a, x, tolerance) {
      var k :| 0 <= k < |a| && a[k].0 == x;
      assert a[k] in multiset(b);
      forall j | 0 <= j < |b| ensures !(x < b[j].0 <= x + tolerance) {
        assert b[j] in multiset(a);
      }
    }
  }

  method ComputeBettiCurve(diagram: seq<(real, Death)>, tolerance: real) returns (curve: seq<Event>)
    requires tolerance >= 0.0
    ensures IsCurve(diagram, tolerance, curve)
  {
    var events := CollectEvents(diagram);
    if |events| == 0 { return []; }
    var sorted := SortEvents(events);
    assert |sorted| == |multiset(sorted)| == |events|;
    curve := Sweep(sorted, tolerance);
    SweepIsCurve(diagram, tolerance, sorted, curve);
  }

  lemma SweepIsCurve(diagram: seq<(real, Death)>, tolerance: real, sorted: seq<Event>, curve: seq<Event>)
    requires multiset(sorted) == multiset(EventsOf(diagram))
    requires forall p :: 0 <= p < |curve| ==> curve[p].1 == NetAt(sorted, curve[p].0)
    requires forall p, q :: 0 <= p < q < |curve| ==> curve[p].0 < curve[q].0
    requires forall p :: 0 <= p < |curve| ==> EndsGroup(sorted, curve[p].0, tolerance)
    requires forall x :: EndsGroup(sorted, x, tolerance) ==> exists p :: 0 <= p < |curve| && curve[p].0 == x
    ensures IsCurve(diagram, tolerance, curve)
  {
    hide NetAt, EndsGroup;
    forall p | 0 <= p < |curve|
      ensures curve[p].1 == Alive(diagram, curve[p].0) - Reversed(diagram, curve[p].0)
      ensures EndsGroup(EventsOf(diagram), curve[p].0, tolerance)
    {
      NetRearranged(sorted, EventsOf(diagram), curve[p].0);
      NetIsAlive(diagram, curve[p].0);
      GroupsRearranged(sorted, EventsOf(diagram), curve[p].0, tolerance);
    }
    forall x | EndsGroup(EventsOf(diagram), x, tolerance) ensures EndsGroup(sorted, x, tolerance) {
      GroupsRearranged(EventsOf(diagram), sorted, x, tolerance);
    }
  }

  /** With births before deaths every emitted count is the number of living bars. */
  lemma CurveCountsLiving(diagram: seq<(real, Death)>, tolerance: real, curve: seq<Event>, p: nat)
    requires IsCurve(diagram, tolerance, curve) && BirthsFirst(diagram) && p < |curve|
    ensures curve[p].1 == Alive(diagram, curve[p].0)
  {
    NothingReversed(diagram, curve[p].0);
  }

  /** Bar i has died by x and is born after x. */
  predicate ReversedAround(diagram: seq<(real, Death)>, i: nat, x: real) {
    i < |diagram| && diagram[i].1.At? && diagram[i].1.time <= x < diagram[i].0
  }

  lemma {:induction false} ReversedMember(diagram: seq<(real, Death)>, x: real)
    ensures Reversed(diagram, x) > 0 <==> exists i: nat :: ReversedAround(diagram, i, x)
  {
    if diagram != [] {
      var last := |diagram| - 1;
      ReversedMember(diagram[..last], x);
      assert forall i: nat | i < last :: diagram[..last][i] == diagram[i];
      if i: nat :| ReversedAround(diagram, i, x) {
        assert i < last ==> ReversedAround(diagram[..last], i, x);
      }
      if i: nat :| ReversedAround(diagram[..last], i, x) {
        assert ReversedAround(diagram, i, x);
      }
      if diagram[last].1.At? && diagram[last].1.time <= x < diagram[last].0 {
        assert ReversedAround(diagram, last, x);
      }
    }
  }

  /** A count is too small exactly at the emitted times inside a reversed bar, never too large. */
  lemma CountFallsShort(diagram: seq<(real, Death)>, tolerance: real, curve: seq<Event>, p: nat)
    requires IsCurve(diagram, tolerance, curve) && p < |curve|
    ensures curve[p].1 <= Alive(diagram, curve[p].0)
    ensures curve[p].1 < Alive(diagram, curve[p].0) <==> exists i: nat :: ReversedAround(diagram, i, curve[p].0)
  {
    ReversedMember(diagram, curve[p].0);
  }

  /** Exactly when the sweep is right: no merge group of the diagram ends inside a reversed bar. */
  lemma CurveExactIff(diagram: seq<(real, Death)>, tolerance: real, curve: seq<Event>)
    requires IsCurve(diagram, tolerance, curve)
    ensures (forall p :: 0 <= p < |curve| ==> curve[p].1 == Alive(diagram, curve[p].0))
       <==> (forall x: real, i: nat :: EndsGroup(EventsOf(diagram), x, tolerance) ==> !ReversedAround(diagram, i, x))
  {
    forall p: nat | p < |curve|
      ensures curve[p].1 == Alive(diagram, curve[p].0) <==> forall i: nat :: !ReversedAround(diagram, i, curve[p].0)
    {
      CountFallsShort(diagram, tolerance, curve, p);
    }
    if x: real, i: nat :| EndsGroup(EventsOf(diagram), x, tolerance) && ReversedAround(diagram, i, x) {
      var p :| 0 <= p < |curve| && curve[p].0 == x;
      assert ReversedAround(diagram, i, curve[p].0);
    }
  }

  /** For every tolerance below 1 one reversed bar from 2 to 1 gives the count -1 at time 1. */
  lemma ReversedBarCountsBelowZero(tolerance: real, curve: seq<Event>)
    requires 0.0 <= tolerance < 1.0
    requires IsCurve([(2.0, At(1.0))], tolerance, curve)
    ensures (1.0, -1) in curve && Alive([(2.0, At(1.0))], 1.0) == 0
  {
    var diagram: seq<(real, Death)> := [(2.0, At(1.0))];
    assert diagram[..0] == [];
    assert EventsOf(diagram) == [(2.0, 1), (1.0, -1)];
    assert EventsOf(diagram)[1].0 == 1.0;
    assert EndsGroup(EventsOf(diagram), 1.0, tolerance);
    var p :| 0 <= p < |curve| && curve[p].0 == 1.0;
    assert Reversed(diagram, 1.0) == 1;
    assert curve[p] == (1.0, -1);
  }

  lemma {:induction false} DeathIsEvent(diagram: seq<(real, Death)>, i: nat)
    requires i < |diagram| && diagram[i].1.At?
    ensures IsTime(EventsOf(diagram), diagram[i].1.time)
  {
    var last := |diagram| - 1;
    var rest := EventsOf(diagram[..last]);
    var events := EventsOf(diagram);
    if i < last {
      DeathIsEvent(diagram[..last], i);
      var k :| 0 <= k < |rest| && rest[k].0 == diagram[i].1.time;
      assert events[k] == rest[k];
    } else {
      assert events[|rest| + 1] == (diagram[i].1.time, -1);
    }
  }

  /** Different event times lie further apart than the tolerance. */
  ghost predicate Separated(events: seq<Event>, tolerance: real) {
    forall i, j :: 0 <= i < |events| && 0 <= j < |events| ==> !(events[i].0 < events[j].0 <= events[i].0 + tolerance)
  }

  /** When nothing is merged the condition is that no bar dies before it is born. */
  lemma CurveExactIffBirthsFirst(diagram: seq<(real, Death)>, tolerance: real, curve: seq<Event>)
    requires IsCurve(diagram, tolerance, curve) && Separated(EventsOf(diagram), tolerance)
    ensures (forall p :: 0 <= p < |curve| ==> curve[p].1 == Alive(diagram, curve[p].0)) <==> BirthsFirst(diagram)
  {
    CurveExactIff(diagram, tolerance, curve);
    if i: nat :| i < |diagram| && diagram[i].1.At? && diagram[i].1.time < diagram[i].0 {
      DeathIsEvent(diagram, i);
      assert EndsGroup(EventsOf(diagram), diagram[i].1.time, tolerance);
      assert ReversedAround(diagram, i, diagram[i].1.time);
    }
  }
}
