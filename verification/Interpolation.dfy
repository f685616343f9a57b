/** Distances and measures: `_interpolate` and `_scale_to_corridor` in `core/lrs.py`, and
    `_interpolate_measures` in `scripts/fetch-arnold.py`. Distances are given numbers. */
module Interpolation {
  import opened Wrappers
  import F = Floats

  predicate Ascending(xs: seq<real>) {
    forall i, j | 0 <= i <= j < |xs| :: xs[i] <= xs[j]
  }

  predicate StrictlyAscending(xs: seq<real>) {
    forall i, j | 0 <= i < j < |xs| :: xs[i] < xs[j]
  }

  /** Where `x` would be inserted after its equals. */
  function BisectRight(xs: seq<real>, x: real): (i: nat)
    requires Ascending(xs)
    ensures i <= |xs|
    ensures forall k | 0 <= k < i :: xs[k] <= x
    ensures forall k | i <= k < |xs| :: x < xs[k]
  {
    if xs == [] || x < xs[0] then 0 else 1 + BisectRight(xs[1..], x)
  }

  /** The point above `x` on the line through (x0, y0) and (x1, y1). */
  function OnLine(x0: real, x1: real, y0: real, y1: real, x: real): real
    requires x0 < x1
  {
    y0 + (x - x0) / (x1 - x0) * (y1 - y0)
  }

  function Interpolate(xs: seq<real>, ys: seq<real>, x: real): real
    requires |xs| == |ys| > 0 && Ascending(xs)
  {
    if x <= xs[0] then ys[0]
    else if x >= xs[|xs| - 1] then ys[|ys| - 1]
    else
      var i := BisectRight(xs, x) - 1;
      var (x0, x1, y0, y1) := (xs[i], xs[i + 1], ys[i], ys[i + 1]);
      if x1 - x0 <= 0.0 then y0 else OnLine(x0, x1, y0, y1, x)
  }

  // ----- lines -----

  lemma {:induction false} OnLineSplits(x0: real, x1: real, y0: real, y1: real, x: real)
    requires x0 < x1
    ensures (OnLine(x0, x1, y0, y1, x) - y0) * (x1 - x0) == (x - x0) * (y1 - y0)
  {
    var t := (x - x0) / (x1 - x0);
    assert t * (x1 - x0) == x - x0;
    Reorder(t, y1 - y0, x1 - x0);
  }

  lemma {:induction false} Reorder(a: real, b: real, c: real)
    ensures a * b * c == a * c * b
  {}

  lemma {:induction false} ProductOrder(a: real, b: real, c: real)
    requires c > 0.0
    ensures a * c <= b * c <==> a <= b
  {
    assert (b - a) * c == b * c - a * c;
    assert a <= b ==> (b - a) * c >= 0.0;
    assert a > b ==> (b - a) * c < 0.0;
  }

  lemma {:induction false} OnLineMonotone(x0: real, x1: real, y0: real, y1: real, x: real, x': real)
    requires x0 < x1 && y0 <= y1 && x <= x'
    ensures OnLine(x0, x1, y0, y1, x) <= OnLine(x0, x1, y0, y1, x')
  {
    var a, b := OnLine(x0, x1, y0, y1, x) - y0, OnLine(x0, x1, y0, y1, x') - y0;
    OnLineSplits(x0, x1, y0, y1, x);
    OnLineSplits(x0, x1, y0, y1, x');
    Scaled(x - x0, x' - x0, y1 - y0);
    ProductOrder(a, b, x1 - x0);
  }

  lemma {:induction false} Scaled(a: real, b: real, c: real)
    requires a <= b && c >= 0.0
    ensures a * c <= b * c
  {
    assert (b - a) * c == b * c - a * c;
  }

  lemma {:induction false} OnLineEnds(x0: real, x1: real, y0: real, y1: real)
    requires x0 < x1
    ensures OnLine(x0, x1, y0, y1, x0) == y0 && OnLine(x0, x1, y0, y1, x1) == y1
  {
    assert (x1 - x0) / (x1 - x0) == 1.0;
    assert 0.0 / (x1 - x0) == 0.0;
  }

  // ----- interpolation -----

  /** Strictly inside the extent the branch for an empty span is never taken. */
  lemma {:induction false} Inside(xs: seq<real>, ys: seq<real>, x: real) returns (i: nat)
    requires |xs| == |ys| > 0 && Ascending(xs) && xs[0] < x < xs[|xs| - 1]
    ensures i + 1 == BisectRight(xs, x) && i + 1 < |xs| && xs[i] <= x < xs[i + 1]
    ensures Interpolate(xs, ys, x) == OnLine(xs[i], xs[i + 1], ys[i], ys[i + 1], x)
  {
    i := BisectRight(xs, x) - 1;
  }

  lemma {:induction false} InsideSegment(xs: seq<real>, ys: seq<real>, x: real) returns (i: nat)
    requires |xs| == |ys| > 0 && Ascending(xs) && Ascending(ys) && xs[0] < x < xs[|xs| - 1]
    ensures i + 1 == BisectRight(xs, x) && i + 1 < |xs| && xs[i] <= x < xs[i + 1]
    ensures Interpolate(xs, ys, x) == OnLine(xs[i], xs[i + 1], ys[i], ys[i + 1], x)
    ensures ys[i] <= Interpolate(xs, ys, x) <= ys[i + 1]
  {
    i := Inside(xs, ys, x);
    OnLineEnds(xs[i], xs[i + 1], ys[i], ys[i + 1]);
    OnLineMonotone(xs[i], xs[i + 1], ys[i], ys[i + 1], xs[i], x);
    OnLineMonotone(xs[i], xs[i + 1], ys[i], ys[i + 1], x, xs[i + 1]);
  }

  /** No measure is invented past either end. */
  lemma {:induction false} StaysWithin(xs: seq<real>, ys: seq<real>, x: real)
    requires |xs| == |ys| > 0 && Ascending(xs) && Ascending(ys)
    ensures ys[0] <= Interpolate(xs, ys, x) <= ys[|ys| - 1]
  {
    if xs[0] < x < xs[|xs| - 1] {
      var i := InsideSegment(xs, ys, x);
    }
  }

  lemma {:induction false} InterpolateMonotone(xs: seq<real>, ys: seq<real>, x: real, x': real)
    requires |xs| == |ys| > 0 && Ascending(xs) && Ascending(ys) && x <= x'
    ensures Interpolate(xs, ys, x) <= Interpolate(xs, ys, x')
  {
    StaysWithin(xs, ys, x);
    StaysWithin(xs, ys, x');
    if xs[0] < x && x' < xs[|xs| - 1] {
      var i := InsideSegment(xs, ys, x);
      var j := InsideSegment(xs, ys, x');
      assert i <= j;
      if i == j {
        OnLineMonotone(xs[i], xs[i + 1], ys[i], ys[i + 1], x, x');
      }
    }
  }

  /** At a distance several vertices share, the lookup reads the last of them, except at
      the start of the line, where it reads the first. */
  predicate ReadsVertex(xs: seq<real>, k: nat)
    requires k < |xs|
  {
    if xs[k] == xs[0] then k == 0
    else k == |xs| - 1 || xs[k] < xs[k + 1]
  }

  lemma {:induction false} AtVertex(xs: seq<real>, ys: seq<real>, k: nat)
    requires |xs| == |ys| > 0 && Ascending(xs) && k < |xs| && ReadsVertex(xs, k)
    ensures Interpolate(xs, ys, xs[k]) == ys[k]
  {
    if xs[0] < xs[k] < xs[|xs| - 1] {
      var i := Inside(xs, ys, xs[k]);
      assert i == k;
      OnLineEnds(xs[i], xs[i + 1], ys[i], ys[i + 1]);
    }
  }

  /** The vertex that is read at the distance of vertex `k`. */
  lemma {:induction false} ReadFor(xs: seq<real>, k: nat) returns (j: nat)
    requires Ascending(xs) && k < |xs|
    ensures j < |xs| && xs[j] == xs[k] && ReadsVertex(xs, j)
    decreases |xs| - k
  {
    if xs[k] == xs[0] {
      j := 0;
    } else if k == |xs| - 1 || xs[k] < xs[k + 1] {
      j := k;
    } else {
      j := ReadFor(xs, k + 1);
    }
  }

  /** With distinct measures a vertex gets its own back exactly when it is the one read;
      where distances are distinct every vertex is. */
  lemma {:induction false} ExactAtVertexIff(xs: seq<real>, ys: seq<real>, k: nat)
    requires |xs| == |ys| > 0 && Ascending(xs) && StrictlyAscending(ys) && k < |xs|
    ensures Interpolate(xs, ys, xs[k]) == ys[k] <==> ReadsVertex(xs, k)
    ensures StrictlyAscending(xs) ==> ReadsVertex(xs, k)
  {
    var j := ReadFor(xs, k);
    AtVertex(xs, ys, j);
    if j == k {
      AtVertex(xs, ys, k);
    } else if j < k {
      assert ys[j] < ys[k];
    } else {
      assert ys[k] < ys[j];
    }
  }

  // ----- distance along the centerline to corridor measure -----

  /** `measures` is empty for an uncalibrated centerline. */
  function ScaleToCorridor(
      cumulative: seq<real>, measures: seq<real>, lengthMiles: real, totalMiles: real, along: real): real
    requires Ascending(cumulative) && (measures != [] && cumulative != [] ==> |cumulative| == |measures|)
  {
    if measures != [] && cumulative != [] then F.Round3(Interpolate(cumulative, measures, along))
    else Uncalibrated(lengthMiles, totalMiles, along)
  }

  function Uncalibrated(lengthMiles: real, totalMiles: real, along: real): real {
    F.Round3(Times(Fraction(lengthMiles, along), totalMiles))
  }

  function Times(x: real, y: real): real {
    x * y
  }

  function Fraction(lengthMiles: real, along: real): real {
    if lengthMiles == 0.0 then 0.0 else along / lengthMiles
  }

  lemma {:induction false} ScaleMonotone(
      cumulative: seq<real>, measures: seq<real>, lengthMiles: real, totalMiles: real, along: real, along': real)
    requires Ascending(cumulative) && Ascending(measures)
    requires measures != [] && cumulative != [] ==> |cumulative| == |measures|
    requires lengthMiles >= 0.0 && totalMiles >= 0.0 && along <= along'
    ensures ScaleToCorridor(cumulative, measures, lengthMiles, totalMiles, along)
         <= ScaleToCorridor(cumulative, measures, lengthMiles, totalMiles, along')
  {
    if measures != [] && cumulative != [] {
      InterpolateMonotone(cumulative, measures, along, along');
      F.Round3Monotone(Interpolate(cumulative, measures, along), Interpolate(cumulative, measures, along'));
    } else {
      FractionMonotone(lengthMiles, along, along');
      UncalibratedMonotone(lengthMiles, totalMiles, along, along');
    }
  }

  lemma {:induction false} UncalibratedMonotone(lengthMiles: real, totalMiles: real, along: real, along': real)
    requires Fraction(lengthMiles, along) <= Fraction(lengthMiles, along') && totalMiles >= 0.0
    ensures Uncalibrated(lengthMiles, totalMiles, along) <= Uncalibrated(lengthMiles, totalMiles, along')
  {
    var a, b := Fraction(lengthMiles, along), Fraction(lengthMiles, along');
    Scaled(a, b, totalMiles);
    F.Round3Monotone(Times(a, totalMiles), Times(b, totalMiles));
  }

  lemma {:induction false} FractionMonotone(c: real, a: real, b: real)
    requires a <= b && c >= 0.0
    ensures Fraction(c, a) <= Fraction(c, b)
  {
    if c > 0.0 {
      var x, y := a / c, b / c;
      assert x * c == a && y * c == b;
      ProductOrder(x, y, c);
    }
  }

  /** Rounding the result loses nothing at the vertices of a line whose measures were
      rounded before they were stored. */
  lemma {:induction false} VertexMeasureExact(
      cumulative: seq<real>, measures: seq<real>, lengthMiles: real, totalMiles: real, k: nat)
    requires |cumulative| == |measures| && Ascending(cumulative) && k < |measures|
    requires ReadsVertex(cumulative, k) && F.Thousandths(measures[k])
    ensures ScaleToCorridor(cumulative, measures, lengthMiles, totalMiles, cumulative[k]) == measures[k]
  {
    AtVertex(cumulative, measures, k);
    F.Round3Fixes(measures[k]);
  }

  // ----- measures along one segment -----

  datatype Vertex = Vertex(lon: real, lat: real, measure: real)

  type Point = (real, real)

  function Sum(xs: seq<real>): real {
    if xs == [] then 0.0 else Sum(xs[..|xs| - 1]) + xs[|xs| - 1]
  }

  predicate Lengths(gaps: seq<real>) {
    forall k | 0 <= k < |gaps| :: gaps[k] >= 0.0
  }

  /** `gaps[k]` is the distance between the vertices `k` and `k + 1`. */
  function MeasureAt(gaps: seq<real>, begin: real, end: real, k: nat): real
    requires k <= |gaps| && Sum(gaps) > 0.0
  {
    Share(begin, end, Sum(gaps[..k]), Sum(gaps))
  }

  function Share(begin: real, end: real, part: real, total: real): real
    requires total > 0.0
  {
    begin + Times(end - begin, part / total)
  }

  function Measured(path: seq<Point>, gaps: seq<real>, begin: real, end: real): seq<Vertex>
    requires |path| == |gaps| + 1
  {
    if Sum(gaps) <= 0.0
    then [Vertex(path[0].0, path[0].1, begin)]
    else seq(|path|, k requires 0 <= k < |path| => VertexAt(path, gaps, begin, end, k))
  }

  function VertexAt(path: seq<Point>, gaps: seq<real>, begin: real, end: real, k: nat): Vertex
    requires |path| == |gaps| + 1 && k < |path| && Sum(gaps) > 0.0
  {
    Vertex(path[k].0, path[k].1, MeasureAt(gaps, begin, end, k))
  }

  /** None where the source raises: a path without a vertex. */
  method InterpolateMeasures(path: seq<Point>, gaps: seq<real>, begin: real, end: real)
      returns (r: Option<seq<Vertex>>)
    requires path != [] ==> |path| == |gaps| + 1
    ensures r == if path == [] then None else Some(Measured(path, gaps, begin, end))
  {
    if path == [] {
      return None;
    }
    var cumulative := [0.0];
    for i := 0 to |path| - 1
      invariant |cumulative| == i + 1
      invariant forall k | 0 <= k <= i :: cumulative[k] == Sum(gaps[..k])
    {
      assert gaps[..i + 1][..i] == gaps[..i];
      cumulative := cumulative + [cumulative[|cumulative| - 1] + gaps[i]];
    }
    assert gaps[..|gaps|] == gaps;
    var total := cumulative[|cumulative| - 1];
    if total <= 0.0 {
      return Some([Vertex(path[0].0, path[0].1, begin)]);
    }
    var out := seq(|path|, k requires 0 <= k < |path| =>
                     Vertex(path[k].0, path[k].1, Share(begin, end, cumulative[k], total)));
    assert forall k | 0 <= k < |path| :: out[k] == VertexAt(path, gaps, begin, end, k);
    assert out == Measured(path, gaps, begin, end);
    return Some(out);
  }

  lemma {:induction false} SumMonotone(gaps: seq<real>, i: nat, j: nat)
    requires i <= j <= |gaps| && Lengths(gaps)
    ensures Sum(gaps[..i]) <= Sum(gaps[..j])
    decreases j
  {
    if i < j {
      SumMonotone(gaps, i, j - 1);
      assert gaps[..j][..j - 1] == gaps[..j - 1];
    }
  }

  /** The measure grows along a segment in proportion to the distance. */
  lemma {:induction false} Proportional(gaps: seq<real>, begin: real, end: real, i: nat, j: nat)
    requires Sum(gaps) > 0.0 && i <= |gaps| && j <= |gaps|
    ensures Times(MeasureAt(gaps, begin, end, j) - MeasureAt(gaps, begin, end, i), Sum(gaps))
         == Times(end - begin, Sum(gaps[..j]) - Sum(gaps[..i]))
  {
    ShareDifference(begin, end, Sum(gaps[..i]), Sum(gaps[..j]), Sum(gaps));
  }

  lemma {:induction false} ShareDifference(begin: real, end: real, a: real, b: real, total: real)
    requires total > 0.0
    ensures Times(Share(begin, end, b, total) - Share(begin, end, a, total), total) == Times(end - begin, b - a)
  {
    var span := end - begin;
    var x, y := Times(span, a / total), Times(span, b / total);
    ShareOf(span, a, total);
    ShareOf(span, b, total);
    Differences(x, y, total);
    Differences(a, b, span);
  }

  lemma {:induction false} ShareOrder(begin: real, end: real, a: real, b: real, total: real)
    requires total > 0.0 && begin < end && a <= b
    ensures Share(begin, end, a, total) <= Share(begin, end, b, total)
    ensures Share(begin, end, a, total) == Share(begin, end, b, total) <==> a == b
  {
    ShareDifference(begin, end, a, b, total);
    SignsAgree(Share(begin, end, b, total) - Share(begin, end, a, total), total, end - begin, b - a);
  }

  lemma {:induction false} MeasuredAt(path: seq<Point>, gaps: seq<real>, begin: real, end: real)
    requires |path| == |gaps| + 1 && Sum(gaps) > 0.0
    ensures |Measured(path, gaps, begin, end)| == |path|
    ensures forall k | 0 <= k < |path| ::
      Measured(path, gaps, begin, end)[k] == VertexAt(path, gaps, begin, end, k)
  {}

  /** A segment is anchored at both its surveyed ends. */
  lemma {:induction false} Anchored(path: seq<Point>, gaps: seq<real>, begin: real, end: real)
    requires |path| == |gaps| + 1 && Sum(gaps) > 0.0
    ensures |Measured(path, gaps, begin, end)| == |path|
    ensures Measured(path, gaps, begin, end)[0].measure == begin
    ensures Measured(path, gaps, begin, end)[|gaps|].measure == end
  {
    AnchorsOf(gaps, begin, end);
    MeasuredAt(path, gaps, begin, end);
  }

  lemma {:induction false} AnchorsOf(gaps: seq<real>, begin: real, end: real)
    requires Sum(gaps) > 0.0
    ensures MeasureAt(gaps, begin, end, 0) == begin && MeasureAt(gaps, begin, end, |gaps|) == end
  {
    assert gaps[..0] == [] && gaps[..|gaps|] == gaps;
    WholeShare(Sum(gaps), end - begin);
  }

  lemma {:induction false} WholeShare(total: real, span: real)
    requires total > 0.0
    ensures span * (0.0 / total) == 0.0 && span * (total / total) == span
  {
    assert 0.0 / total == 0.0 && total / total == 1.0;
  }

  lemma {:induction false} ShareOf(span: real, part: real, total: real)
    requires total > 0.0
    ensures span * (part / total) * total == span * part
  {
    var t := part / total;
    assert t * total == part;
    assert span * t * total == span * (t * total);
  }

  lemma {:induction false} Differences(a: real, b: real, c: real)
    ensures (b - a) * c == b * c - a * c && c * (b - a) == c * b - c * a
  {}

  /** The measures never leave the segment and never turn back; they stand still only
      between vertices that no distance separates. */
  lemma {:induction false} MeasuresFollowTheRoad(
      path: seq<Point>, gaps: seq<real>, begin: real, end: real, i: nat, j: nat)
    requires |path| == |gaps| + 1 && Lengths(gaps) && Sum(gaps) > 0.0 && begin < end && i <= j < |path|
    ensures var r := Measured(path, gaps, begin, end);
            && |r| == |path| && begin <= r[i].measure <= r[j].measure <= end
            && (r[i].measure == r[j].measure <==> Sum(gaps[..i]) == Sum(gaps[..j]))
  {
    MeasuredAt(path, gaps, begin, end);
    AnchorsOf(gaps, begin, end);
    Between(gaps, begin, end, 0, i);
    Between(gaps, begin, end, i, j);
    Between(gaps, begin, end, j, |gaps|);
  }

  lemma {:induction false} Between(gaps: seq<real>, begin: real, end: real, i: nat, j: nat)
    requires Lengths(gaps) && Sum(gaps) > 0.0 && begin < end && i <= j <= |gaps|
    ensures MeasureAt(gaps, begin, end, i) <= MeasureAt(gaps, begin, end, j)
    ensures MeasureAt(gaps, begin, end, i) == MeasureAt(gaps, begin, end, j) <==> Sum(gaps[..i]) == Sum(gaps[..j])
  {
    SumMonotone(gaps, i, j);
    ShareOrder(begin, end, Sum(gaps[..i]), Sum(gaps[..j]), Sum(gaps));
  }

  lemma {:induction false} SignsAgree(a: real, b: real, c: real, d: real)
    requires a * b == c * d && b > 0.0 && c > 0.0 && d >= 0.0
    ensures a >= 0.0 && (a == 0.0 <==> d == 0.0)
  {
    assert a < 0.0 ==> a * b < 0.0;
    assert c * d >= 0.0;
    assert d > 0.0 ==> c * d > 0.0;
    assert a > 0.0 ==> a * b > 0.0;
  }

  // ----- what a measure is worth -----

  /** Between two vertices the measure advances in proportion to the distance; before the
      first and after the last it stands still. */
  lemma {:induction false} LinearBetween(xs: seq<real>, ys: seq<real>, x: real)
    requires |xs| == |ys| > 0 && Ascending(xs)
    ensures forall k | 0 <= k < |xs| - 1 && xs[k] < x < xs[k + 1] ::
      (Interpolate(xs, ys, x) - ys[k]) * (xs[k + 1] - xs[k]) == (x - xs[k]) * (ys[k + 1] - ys[k])
    ensures x <= xs[0] ==> Interpolate(xs, ys, x) == ys[0]
    ensures x > xs[0] && x >= xs[|xs| - 1] ==> Interpolate(xs, ys, x) == ys[|ys| - 1]
  {
    forall k | 0 <= k < |xs| - 1 && xs[k] < x < xs[k + 1]
      ensures (Interpolate(xs, ys, x) - ys[k]) * (xs[k + 1] - xs[k]) == (x - xs[k]) * (ys[k + 1] - ys[k])
    {
      var i := Inside(xs, ys, x);
      OnLineSplits(xs[i], xs[i + 1], ys[i], ys[i + 1], x);
    }
  }

  /** A measure is the interpolated one on a calibrated centerline and the share of the
      corridor otherwise, to within half a thousandth. */
  lemma {:induction false} ScaleIs(
      cumulative: seq<real>, measures: seq<real>, lengthMiles: real, totalMiles: real, along: real)
    requires Ascending(cumulative) && |cumulative| == |measures|
    ensures measures != [] ==>
      F.AbsReal(ScaleToCorridor(cumulative, measures, lengthMiles, totalMiles, along)
                - Interpolate(cumulative, measures, along)) <= 0.0005
    ensures measures == [] && lengthMiles != 0.0 ==>
      F.AbsReal(ScaleToCorridor(cumulative, measures, lengthMiles, totalMiles, along)
                - along / lengthMiles * totalMiles) <= 0.0005
    ensures measures == [] && lengthMiles == 0.0 ==>
      ScaleToCorridor(cumulative, measures, lengthMiles, totalMiles, along) == 0.0
  {
    if measures != [] {
      F.RoundsNear(Interpolate(cumulative, measures, along));
    } else {
      F.RoundsNear(Times(Fraction(lengthMiles, along), totalMiles));
      F.RoundFixes(0);
    }
  }

  /** Measuring moves no vertex; a path without length keeps its first one, where the
      segment begins. */
  lemma {:induction false} PositionsKept(path: seq<Point>, gaps: seq<real>, begin: real, end: real, k: nat)
    requires |path| == |gaps| + 1 && k < |Measured(path, gaps, begin, end)|
    ensures Measured(path, gaps, begin, end)[k].lon == path[k].0
    ensures Measured(path, gaps, begin, end)[k].lat == path[k].1
    ensures |Measured(path, gaps, begin, end)| == if Sum(gaps) <= 0.0 then 1 else |path|
    ensures Sum(gaps) <= 0.0 ==> Measured(path, gaps, begin, end)[k].measure == begin
  {
  }
}
