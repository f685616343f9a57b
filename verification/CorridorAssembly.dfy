/** Chaining the states onto one corridor: `build_corridor` in `scripts/fetch-arnold.py`,
    from the vertices each state was loaded with. */
module CorridorAssembly {
  import opened Wrappers
  import F = Floats
  import I = Interpolation
  import M = Mileposts

  type Vertex = I.Vertex

  datatype State = State(name: string, points: seq<Vertex>)

  datatype Corridor = Corridor(cleaned: seq<Vertex>, segments: seq<M.Segment>)

  // ----- the monotone filter -----

  /** A strict left-to-right maximum of the measures. */
  predicate IsRecord(vs: seq<Vertex>, k: nat)
    requires k < |vs|
  {
    forall j | 0 <= j < k :: vs[j].measure < vs[k].measure
  }

  /** The strict left-to-right maxima, in order. */
  function Records(vs: seq<Vertex>): seq<Vertex> {
    if vs == [] then []
    else
      var last := |vs| - 1;
      Records(vs[..last]) + (if IsRecord(vs, last) then [vs[last]] else [])
  }

  predicate Ascending(vs: seq<Vertex>) {
    forall i, j | 0 <= i < j < |vs| :: vs[i].measure < vs[j].measure
  }

  /** The last record has the largest measure, and the records ascend. */
  lemma {:induction false} RecordsAscend(vs: seq<Vertex>)
    requires vs != []
    ensures Records(vs) != [] && Records(vs)[0] == vs[0] && Ascending(Records(vs))
    ensures forall k | 0 <= k < |vs| :: vs[k].measure <= Records(vs)[|Records(vs)| - 1].measure
    decreases |vs|
  {
    var last := |vs| - 1;
    if last > 0 {
      RecordsAscend(vs[..last]);
      var before := Records(vs[..last]);
      var top := before[|before| - 1];
      assert top in before;
      RecordsAreVertices(vs[..last], top);
      assert forall k | 0 <= k < last :: vs[..last][k] == vs[k];
    }
  }

  lemma {:induction false} RecordOfPrefix(vs: seq<Vertex>, n: nat, k: nat)
    requires k < n <= |vs|
    ensures vs[..n][k] == vs[k] && IsRecord(vs[..n], k) == IsRecord(vs, k)
  {
    assert forall j | 0 <= j <= k :: vs[..n][j] == vs[j];
  }

  /** `v` stands at the place of a record. */
  predicate IsRecorded(vs: seq<Vertex>, v: Vertex) {
    exists k | 0 <= k < |vs| && vs[k] == v :: IsRecord(vs, k)
  }

  lemma {:induction false} RecordedLast(vs: seq<Vertex>, v: Vertex)
    requires vs != []
    ensures var last := |vs| - 1;
            IsRecorded(vs, v) <==> IsRecorded(vs[..last], v) || (vs[last] == v && IsRecord(vs, last))
  {
    var last := |vs| - 1;
    if IsRecorded(vs[..last], v) {
      var k: nat :| k < last && vs[..last][k] == v && IsRecord(vs[..last], k);
      RecordOfPrefix(vs, last, k);
    }
    if IsRecorded(vs, v) {
      var k: nat :| k < |vs| && vs[k] == v && IsRecord(vs, k);
      if k < last {
        RecordOfPrefix(vs, last, k);
      }
    }
  }

  lemma {:induction false} RecordsAreVertices(vs: seq<Vertex>, v: Vertex)
    ensures v in Records(vs) <==> IsRecorded(vs, v)
    decreases |vs|
  {
    if vs != [] {
      RecordsAreVertices(vs[..|vs| - 1], v);
      RecordedLast(vs, v);
    }
  }

  /** One turn of the filter: the last vertex kept stands for everything seen. */
  lemma {:induction false} FilterStep(vs: seq<Vertex>, k: nat)
    requires 0 < k < |vs|
    ensures Records(vs[..k]) != []
    ensures var kept := Records(vs[..k]);
            Records(vs[..k + 1]) == if vs[k].measure <= kept[|kept| - 1].measure then kept else kept + [vs[k]]
  {
    var seen, kept := vs[..k], Records(vs[..k]);
    RecordsAscend(seen);
    var top := kept[|kept| - 1];
    RecordsAreVertices(seen, top);
    var j :| 0 <= j < |seen| && seen[j] == top && IsRecord(seen, j);
    var next := vs[..k + 1];
    assert next[..k] == seen && next[j] == top;
    assert forall i | 0 <= i < k :: next[i] == seen[i];
    assert IsRecord(next, k) <==> top.measure < vs[k].measure;
  }

  lemma {:induction false} RecordsOfFirst(vs: seq<Vertex>)
    requires vs != []
    ensures Records(vs[..1]) == [vs[0]]
  {
    assert vs[..1][..0] == [];
  }

  method KeepAscending(corridor: seq<Vertex>) returns (cleaned: seq<Vertex>)
    requires corridor != []
    ensures cleaned == Records(corridor)
  {
    cleaned := [corridor[0]];
    RecordsOfFirst(corridor);
    for i := 1 to |corridor|
      invariant cleaned == Records(corridor[..i])
    {
      FilterStep(corridor, i);
      var v := corridor[i];
      if v.measure <= cleaned[|cleaned| - 1].measure {
        continue;
      }
      cleaned := cleaned + [v];
    }
    assert corridor[..|corridor|] == corridor;
  }

  /** Filtering an ascending line changes nothing, so filtering twice is filtering once. */
  lemma {:induction false} AscendingIsKept(vs: seq<Vertex>)
    requires Ascending(vs)
    ensures Records(vs) == vs
    decreases |vs|
  {
    if vs != [] {
      AscendingIsKept(vs[..|vs| - 1]);
    }
  }

  lemma {:induction false} FilterIdempotent(vs: seq<Vertex>)
    requires vs != []
    ensures Records(Records(vs)) == Records(vs)
  {
    RecordsAscend(vs);
    AscendingIsKept(Records(vs));
  }

  /** Every vertex the filter drops has one before it, kept, that is at least as far on. */
  lemma {:induction false} DroppedAreOvertaken(vs: seq<Vertex>, k: nat)
    requires k < |vs|
    ensures exists j | 0 <= j <= k && IsRecord(vs, j) ::
      vs[j].measure >= vs[k].measure && vs[j] in Records(vs) && (IsRecord(vs, k) || j < k)
  {
    if IsRecord(vs, k) {
      RecordsAreVertices(vs, vs[k]);
    } else {
      var i :| 0 <= i < k && vs[i].measure >= vs[k].measure;
      DroppedAreOvertaken(vs, i);
    }
  }

  // ----- chaining -----

  function LastMeasure(points: seq<Vertex>): real {
    if points == [] then 0.0 else points[|points| - 1].measure
  }

  /** Where the state after these begins. */
  function Offset(states: seq<State>): real {
    if states == [] then 0.0 else Offset(states[..|states| - 1]) + LastMeasure(states[|states| - 1].points)
  }

  function Placed(v: Vertex, offset: real): Vertex {
    I.Vertex(F.Round6(v.lon), F.Round6(v.lat), F.Round3(offset + v.measure))
  }

  function PlacedAll(points: seq<Vertex>, offset: real): seq<Vertex> {
    seq(|points|, k requires 0 <= k < |points| => Placed(points[k], offset))
  }

  function Chain(states: seq<State>): seq<Vertex> {
    if states == [] then []
    else
      var before := states[..|states| - 1];
      Chain(before) + PlacedAll(states[|states| - 1].points, Offset(before))
  }

  function SegmentAt(states: seq<State>, k: nat): M.Segment
    requires k < |states|
  {
    M.Segment(states[k].name, 0.0, F.Round3(LastMeasure(states[k].points)), F.Round3(Offset(states[..k])))
  }

  function Segments(states: seq<State>): (r: seq<M.Segment>)
    ensures |r| == |states| && forall k | 0 <= k < |r| :: r[k] == SegmentAt(states, k)
  {
    seq(|states|, k requires 0 <= k < |states| => SegmentAt(states, k))
  }

  predicate Loaded(states: seq<State>) {
    states != [] && forall k | 0 <= k < |states| :: states[k].points != []
  }

  method PlaceState(points: seq<Vertex>, offset: real, corridor: seq<Vertex>) returns (corridor': seq<Vertex>)
    ensures corridor' == corridor + PlacedAll(points, offset)
  {
    corridor' := corridor;
    for i := 0 to |points|
      invariant corridor' == corridor + PlacedAll(points, offset)[..i]
    {
      var v := points[i];
      assert PlacedAll(points, offset)[..i + 1] == PlacedAll(points, offset)[..i] + [Placed(v, offset)];
      corridor' := corridor' + [I.Vertex(F.Round6(v.lon), F.Round6(v.lat), F.Round3(offset + v.measure))];
    }
    assert PlacedAll(points, offset)[..|points|] == PlacedAll(points, offset);
  }

  /** None where the source raises: no state, or a state without a vertex. */
  method BuildCorridor(states: seq<State>) returns (r: Option<Corridor>)
    ensures r.None? <==> states == [] || exists k | 0 <= k < |states| :: states[k].points == []
    ensures r.Some? ==> r.value == Corridor(Records(Chain(states)), Segments(states))
  {
    var segments: seq<M.Segment>, offset, corridor: seq<Vertex> := [], 0.0, [];
    for k := 0 to |states|
      invariant forall j | 0 <= j < k :: states[j].points != []
      invariant offset == Offset(states[..k]) && corridor == Chain(states[..k])
      invariant segments == Segments(states)[..k]
      invariant k > 0 ==> corridor != []
    {
      var points := states[k].points;
      if points == [] {
        return None;
      }
      assert states[..k + 1][..k] == states[..k];
      assert Segments(states)[..k + 1] == Segments(states)[..k] + [SegmentAt(states, k)];
      var stateMax := points[|points| - 1].measure;
      corridor := PlaceState(points, offset, corridor);
      segments := segments + [M.Segment(states[k].name, 0.0, F.Round3(stateMax), F.Round3(offset))];
      offset := offset + stateMax;
    }
    assert states[..|states|] == states;
    assert Segments(states)[..|states|] == Segments(states);
    if corridor == [] {
      return None;
    }
    var cleaned := KeepAscending(corridor);
    return Some(Corridor(cleaned, segments));
  }

  // ----- what the corridor is good for -----

  lemma {:induction false} ChainRounded(states: seq<State>)
    ensures forall v | v in Chain(states) :: F.Thousandths(v.measure)
    decreases |states|
  {
    if states != [] {
      var last := |states| - 1;
      ChainRounded(states[..last]);
      var placed := PlacedAll(states[last].points, Offset(states[..last]));
      forall v | v in placed
        ensures F.Thousandths(v.measure)
      {
        var k :| 0 <= k < |placed| && placed[k] == v;
        F.Round3Whole(Offset(states[..last]) + states[last].points[k].measure);
      }
    }
  }

  lemma {:induction false} ChainSomewhere(states: seq<State>)
    requires Loaded(states)
    ensures Chain(states) != []
  {}

  /** The assembled line ascends strictly, and reading a distance back at any of its
      vertices gives exactly the measure that vertex was stored with. */
  lemma {:induction false} AssembledReadsBack(
      states: seq<State>, cumulative: seq<real>, lengthMiles: real, totalMiles: real, k: nat)
    requires Loaded(states)
    requires var line := Records(Chain(states));
             |cumulative| == |line| && I.StrictlyAscending(cumulative) && k < |line|
    ensures var line := Records(Chain(states));
            && Ascending(line)
            && I.ScaleToCorridor(cumulative, MeasuresOf(line), lengthMiles, totalMiles, cumulative[k])
               == line[k].measure
  {
    var line := Records(Chain(states));
    ChainSomewhere(states);
    RecordsAscend(Chain(states));
    assert line[k] in line;
    RecordsAreVertices(Chain(states), line[k]);
    ChainRounded(states);
    WeaklyAscending(cumulative);
    I.VertexMeasureExact(cumulative, MeasuresOf(line), lengthMiles, totalMiles, k);
  }

  function MeasuresOf(line: seq<Vertex>): seq<real> {
    seq(|line|, k requires 0 <= k < |line| => line[k].measure)
  }

  lemma {:induction false} WeaklyAscending(xs: seq<real>)
    requires I.StrictlyAscending(xs)
    ensures I.Ascending(xs)
  {
    forall i, j | 0 <= i <= j < |xs|
      ensures xs[i] <= xs[j]
    {
      assert i < j ==> xs[i] < xs[j];
    }
  }

  /** Where the vertices of state `k` begin in the chain. */
  function StartOf(states: seq<State>, k: nat): nat
    requires k <= |states|
  {
    |Chain(states[..k])|
  }

  lemma {:induction false} ChainPrefix(states: seq<State>, k: nat)
    requires k <= |states|
    ensures Chain(states[..k]) <= Chain(states)
    decreases |states|
  {
    if k == |states| {
      assert states[..k] == states;
    } else {
      var before := states[..|states| - 1];
      ChainPrefix(before, k);
      assert before[..k] == states[..k];
    }
  }

  /** Every vertex stands in the chain within a thousandth of a mile of where its own
      milepost is, and the last one of a state exactly where the next segment begins. */
  lemma {:induction false} VertexAtItsMilepost(states: seq<State>, k: nat, i: nat)
    requires k < |states| && i < |states[k].points|
    ensures var v, j := states[k].points[i], StartOf(states, k) + i;
            && j < |Chain(states)|
            && -0.001 <= Chain(states)[j].measure - (Segments(states)[k].offset + v.measure) <= 0.001
            && (i == |states[k].points| - 1 && k + 1 < |states| ==>
                  Chain(states)[j].measure == Segments(states)[k + 1].offset)
  {
    ChainedAt(states, k, i);
    PlacedNear(states[k].points[i], Offset(states[..k]));
    if k + 1 < |states| {
      assert states[..k + 1][..k] == states[..k];
    }
  }

  lemma {:induction false} ChainedAt(states: seq<State>, k: nat, i: nat)
    requires k < |states| && i < |states[k].points|
    ensures StartOf(states, k) + i < |Chain(states)|
    ensures Chain(states)[StartOf(states, k) + i] == Placed(states[k].points[i], Offset(states[..k]))
  {
    var upTo, placed := states[..k + 1], PlacedAll(states[k].points, Offset(states[..k]));
    assert upTo[..k] == states[..k];
    ChainPrefix(states, k + 1);
    assert Chain(upTo) == Chain(states[..k]) + placed;
    InsideSecond(Chain(states[..k]), placed, Chain(states), i);
  }

  lemma {:induction false} InsideSecond<T>(a: seq<T>, b: seq<T>, all: seq<T>, i: nat)
    requires a + b <= all && i < |b|
    ensures |a| + i < |all| && all[|a| + i] == b[i]
  {
    assert (a + b)[|a| + i] == b[i];
  }

  lemma {:induction false} PlacedNear(v: Vertex, offset: real)
    ensures -0.001 <= Placed(v, offset).measure - (F.Round3(offset) + v.measure) <= 0.001
  {
    Round3Near(offset);
    Round3Near(offset + v.measure);
  }

  lemma {:induction false} Round3Near(x: real)
    ensures -0.0005 <= F.Round3(x) - x <= 0.0005
  {
    var n := F.RoundHalfEven(x * 1000.0);
    assert n as real - 0.5 <= x * 1000.0 <= n as real + 0.5;
  }

  // ----- state lines -----

  /** How far the segment of state `k` begins past the end of the one before. */
  function Seam(states: seq<State>, k: nat): real
    requires 0 < k < |states|
  {
    Segments(states)[k].offset - Segments(states)[k - 1].End()
  }

  lemma {:induction false} SeamRounding(states: seq<State>, k: nat)
    requires 0 < k < |states|
    ensures var o, m := Offset(states[..k - 1]), LastMeasure(states[k - 1].points);
            Seam(states, k) == F.Round3(o + m) - F.Round3(o) - F.Round3(m)
  {
    assert states[..k][..k - 1] == states[..k - 1];
  }

  lemma {:induction false} RoundedSum(x: real, y: real)
    ensures F.Round3(x + y) - F.Round3(x) - F.Round3(y) in {-0.001, 0.0, 0.001}
  {
    var a, b, c := F.RoundHalfEven(x * 1000.0), F.RoundHalfEven(y * 1000.0), F.RoundHalfEven((x + y) * 1000.0);
    assert (x + y) * 1000.0 == x * 1000.0 + y * 1000.0;
    var d := c - a - b;
    assert -1.5 <= d as real <= 1.5;
    assert d == -1 || d == 0 || d == 1;
  }

  /** Offsets and state lengths are rounded apart, so a state line can be off by one
      thousandth of a mile and no more; the first one never is. */
  lemma {:induction false} SeamDrift(states: seq<State>, k: nat)
    requires 0 < k < |states|
    ensures Seam(states, k) in {-0.001, 0.0, 0.001}
    ensures k == 1 ==> Seam(states, k) == 0.0
  {
    SeamRounding(states, k);
    RoundedSum(Offset(states[..k - 1]), LastMeasure(states[k - 1].points));
    if k == 1 {
      assert Offset(states[..0]) == 0.0;
      F.RoundFixes(0);
    }
  }

  lemma {:induction false} OffsetWhole(states: seq<State>)
    requires forall k | 0 <= k < |states| :: F.Thousandths(LastMeasure(states[k].points))
    ensures F.Thousandths(Offset(states))
    decreases |states|
  {
    if states == [] {
      assert 0.0 == F.Milli(0);
    } else {
      var last := |states| - 1;
      OffsetWhole(states[..last]);
      SumWhole(Offset(states[..last]), LastMeasure(states[last].points));
    }
  }

  lemma {:induction false} SumWhole(x: real, y: real)
    requires F.Thousandths(x) && F.Thousandths(y)
    ensures F.Thousandths(x + y)
  {
    var n, m :| x == F.Milli(n) && y == F.Milli(m);
    assert x + y == F.Milli(n + m);
  }

  /** When every state was measured to the thousandth, the segments form a chain and each
      state line is one place under both its mileposts. */
  lemma {:induction false} WholeStatesChain(states: seq<State>)
    requires forall k | 0 <= k < |states| ::
      F.Thousandths(LastMeasure(states[k].points)) && LastMeasure(states[k].points) > 0.0
    ensures M.Chained(Segments(states))
  {
    forall k | 0 <= k < |states|
      ensures Segments(states)[k].Length() > 0.0
    {
      F.Round3Fixes(LastMeasure(states[k].points));
    }
    forall k | 0 < k < |states|
      ensures Segments(states)[k].offset == Segments(states)[k - 1].End()
    {
      SeamRounding(states, k);
      var o, m := Offset(states[..k - 1]), LastMeasure(states[k - 1].points);
      OffsetWhole(states[..k - 1]);
      SumWhole(o, m);
      F.Round3Fixes(o);
      F.Round3Fixes(m);
      F.Round3Fixes(o + m);
      assert Seam(states, k) == 0.0;
    }
  }

  /** A state line is one place under both its mileposts exactly when the three roundings
      add up. */
  lemma {:induction false} StateLineExactIff(states: seq<State>, k: nat)
    requires 0 < k < |states| && M.Named(Segments(states))
    requires forall j | 0 <= j < |states| :: LastMeasure(states[j].points) >= 0.0
    ensures var s, o, m := Segments(states), Offset(states[..k - 1]), LastMeasure(states[k - 1].points);
            M.LastOf(s, s[k - 1]) == M.FirstOf(s, s[k]) <==> F.Round3(o + m) == F.Round3(o) + F.Round3(m)
  {
    var s := Segments(states);
    forall j | 0 <= j < |s|
      ensures s[j].Length() >= 0.0
    {
      F.Round3Monotone(0.0, LastMeasure(states[j].points));
      F.RoundFixes(0);
    }
    SeamRounding(states, k);
    M.StateLineIff(s, k);
  }

  predicate ShortStates(states: seq<State>) {
    |states| == 3 && forall k | 0 <= k < 3 :: LastMeasure(states[k].points) == 1.0004
  }

  /** Later seams can open: three states of 1.0004 miles leave a thousandth of a mile
      between the second and the third, and a measure in it belongs to no state. */
  lemma {:induction false} SeamCanOpen(states: seq<State>)
    requires ShortStates(states)
    ensures Seam(states, 2) == 0.001
    ensures M.MilepostFor(Segments(states), 2.0005) == None
  {
    var s := Segments(states);
    ShortOffsets(states);
    RoundedLengths();
    SeamRounding(states, 2);
    assert forall j | 0 <= j < 3 :: s[j] == SegmentAt(states, j) && !s[j].Holds(2.0005);
    var k := M.FindFirst(s, 2.0005);
  }

  lemma {:induction false} ShortOffsets(states: seq<State>)
    requires ShortStates(states)
    ensures Offset(states[..0]) == 0.0 && Offset(states[..1]) == 1.0004 && Offset(states[..2]) == 2.0008
  {
    assert states[..1][..0] == states[..0] && states[..2][..1] == states[..1];
  }

  lemma {:induction false} RoundedLengths()
    ensures F.Round3(0.0) == 0.0 && F.Round3(1.0004) == 1.0 && F.Round3(2.0008) == 2.001
  {
    assert (1000.4).Floor == 1000 && (2000.8).Floor == 2000 && (0.0).Floor == 0;
  }

  // ----- what is written -----

  /** Every vertex stands in the chain where it was, to within half a millionth of a degree
      either way. */
  lemma {:induction false} VertexStays(states: seq<State>, k: nat, i: nat)
    requires k < |states| && i < |states[k].points|
    ensures var v, j := states[k].points[i], StartOf(states, k) + i;
            && j < |Chain(states)|
            && F.AbsReal(Chain(states)[j].lon - v.lon) <= 0.0000005
            && F.AbsReal(Chain(states)[j].lat - v.lat) <= 0.0000005
  {
    ChainedAt(states, k, i);
    F.RoundsNear(states[k].points[i].lon);
    F.RoundsNear(states[k].points[i].lat);
  }

  /** The last measures of some states, added up. */
  function LengthOf(states: seq<State>): real {
    if states == [] then 0.0 else LastMeasure(states[0].points) + LengthOf(states[1..])
  }

  lemma {:induction false} LengthOfLast(states: seq<State>)
    requires states != []
    ensures LengthOf(states) == LengthOf(states[..|states| - 1]) + LastMeasure(states[|states| - 1].points)
    decreases |states|
  {
    if |states| > 1 {
      LengthOfLast(states[1..]);
      assert states[1..][..|states| - 2] == states[..|states| - 1][1..];
    } else {
      assert states[1..] == [];
    }
  }

  lemma {:induction false} OffsetIs(states: seq<State>)
    ensures Offset(states) == LengthOf(states)
    decreases |states|
  {
    if states != [] {
      OffsetIs(states[..|states| - 1]);
      LengthOfLast(states);
    }
  }

  /** A segment bears its state's name, posts miles from 0 to the state's last measure and
      begins where the states before it add up to, both to within half a thousandth. */
  lemma {:induction false} SegmentIs(states: seq<State>, k: nat)
    requires Loaded(states) && k < |states|
    ensures var s := Segments(states)[k];
            && s.state == states[k].name && s.milepostMin == 0.0
            && F.AbsReal(s.milepostMax - states[k].points[|states[k].points| - 1].measure) <= 0.0005
            && F.AbsReal(s.offset - LengthOf(states[..k])) <= 0.0005
  {
    OffsetIs(states[..k]);
    F.RoundsNear(LastMeasure(states[k].points));
    F.RoundsNear(Offset(states[..k]));
  }
}
