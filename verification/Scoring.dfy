/** Pairwise scoring of two candidate events: `core/matcher.py`. */
module Scoring {
  import opened Wrappers
  import opened Floats

  datatype EventClass =
    | WorkZone | Incident | Closure | Congestion | Weather | RoadSurface
    | DimensionalRestriction | TruckParking
    | Unrecognized(name: string)

  datatype Direction = EB | WB | BOTH | UNKNOWN

  /** The fields of a candidate that matching reads. Times are seconds; `start` is
      None when it does not parse, `end` when it is absent or does not parse. */
  datatype Candidate = Candidate(
    eventClass: EventClass,
    begin: Float,
    end: Float,
    direction: Direction,
    start: Option<real>,
    finish: Option<real>,
    source: string)

  const SPATIAL_TOLERANCE_MILES := 0.5
  const NEAR_MISS_DECAY_MILES := 5.0
  const POINT_EVENT_MILES := 0.1
  const MERGE_THRESHOLD := 0.75
  const REVIEW_THRESHOLD := 0.5
  // 2999-12-31T00:00:00Z
  const STILL_RUNNING := 32503593600.0

  /** Conflation either places an extent at both ends or at neither. */
  predicate Resolved(c: Candidate) {
    c.begin.Num? && c.end.Num?
  }

  predicate Unresolved(c: Candidate) {
    c.begin.NaN? && c.end.NaN?
  }

  predicate Conflated(c: Candidate) {
    Resolved(c) || Unresolved(c)
  }

  // ----- measure_overlap (core/lrs.py) -----

  datatype Overlap = Overlap(overlaps: bool, overlapMiles: Float, gapMiles: Float)

  function MeasureOverlap(a: (Float, Float), b: (Float, Float), tolerance: real): Overlap {
    var aLo := Sub(Min(a.0, a.1), Num(tolerance));
    var aHi := Add(Max(a.0, a.1), Num(tolerance));
    var bLo := Min(b.0, b.1);
    var bHi := Max(b.0, b.1);
    var overlap := Sub(Min(aHi, bHi), Max(aLo, bLo));
    if Le(Num(0.0), overlap) then Overlap(true, overlap, Num(0.0))
    else Overlap(false, Num(0.0), Sub(Num(0.0), overlap))
  }

  // ----- the five components -----

  function Length(c: Candidate): Float {
    Abs(Sub(c.end, c.begin))
  }

  /** The share of the shorter extent that the overlap covers. */
  function Coverage(miles: Float, shorter: Float): (s: real)
    ensures 0.0 <= s <= 1.0
  {
    if Lt(shorter, Num(POINT_EVENT_MILES)) then 1.0
    else
      var covered := Min(Num(1.0), Div(Max(Num(0.0), miles), shorter));
      CoverageInUnitInterval(covered, miles, shorter);
      Round4(covered.r)
  }

  lemma {:induction false} CoverageInUnitInterval(covered: Float, miles: Float, shorter: Float)
    requires !Lt(shorter, Num(POINT_EVENT_MILES))
    requires covered == Min(Num(1.0), Div(Max(Num(0.0), miles), shorter))
    ensures covered.Num? && 0.0 <= Round4(covered.r) <= 1.0
  {
    Round4Monotone(0.0, covered.r);
    Round4Monotone(covered.r, 1.0);
    Round4Fixes(0);
    Round4Fixes(10000);
  }

  lemma {:induction false} FullCoverage(miles: Float, shorter: Float)
    requires miles.Num? && shorter.Num? && miles.r >= shorter.r
    ensures Coverage(miles, shorter) == 1.0
  {
    if shorter.r >= POINT_EVENT_MILES {
      assert miles.r / shorter.r >= 1.0;
      Round4Fixes(10000);
    }
  }

  function ScoreSpatial(a: Candidate, b: Candidate): (s: real)
    ensures 0.0 <= s <= 1.0
  {
    var o := MeasureOverlap((a.begin, a.end), (b.begin, b.end), SPATIAL_TOLERANCE_MILES);
    if !o.overlaps then
      var decayed := Max(Num(0.0), Sub(Num(1.0), Div(o.gapMiles, Num(NEAR_MISS_DECAY_MILES))));
      decayed.r * 0.3
    else
      Coverage(o.overlapMiles, Min(Length(a), Length(b)))
  }

  function ReopenWindowSeconds(c: EventClass): (seconds: real)
    ensures seconds > 0.0
  {
    match c
    case WorkZone => 604800.0
    case Incident => 3600.0
    case Closure => 7200.0
    case Congestion => 900.0
    case Weather => 10800.0
    case RoadSurface => 7200.0
    case DimensionalRestriction => 2592000.0
    case TruckParking => 3600.0
    case Unrecognized(_) => 3600.0
  }

  function EndTime(c: Candidate): real {
    if c.finish.Some? then c.finish.value else STILL_RUNNING
  }

  function ScoreTemporal(a: Candidate, b: Candidate): (s: real)
    ensures 0.0 <= s <= 1.0
  {
    if a.start.None? || b.start.None? then 0.0
    else
      var overlap := MinReal(EndTime(a), EndTime(b)) - MaxReal(a.start.value, b.start.value);
      if overlap >= 0.0 then 1.0
      else
        var decayed := MaxReal(0.0, 1.0 + overlap / ReopenWindowSeconds(a.eventClass));
        Round4Monotone(0.0, decayed);
        Round4Monotone(decayed, 1.0);
        Round4Fixes(0);
        Round4Fixes(10000);
        Round4(decayed)
  }

  const RELATED_NOT_SAME: set<set<EventClass>> := {
    {Weather, RoadSurface},
    {Incident, Closure},
    {Incident, Congestion},
    {WorkZone, Closure}
  }

  function ScoreClass(a: Candidate, b: Candidate): real {
    if a.eventClass == b.eventClass then 1.0
    else if {a.eventClass, b.eventClass} in RELATED_NOT_SAME then 0.15
    else 0.0
  }

  function ScoreDirection(a: Candidate, b: Candidate): real {
    var x, y := a.direction, b.direction;
    if x == y then 1.0
    else if x == UNKNOWN || y == UNKNOWN then 0.6
    else if x == BOTH || y == BOTH then 0.8
    else 0.0
  }

  /** Which agencies count as one voice; a source outside the table is its own group. */
  type Groups = map<string, string>

  function GroupOf(groups: Groups, source: string): string {
    if source in groups then groups[source] else source
  }

  function ScoreIndependence(groups: Groups, a: Candidate, b: Candidate): real {
    if GroupOf(groups, a.source) == GroupOf(groups, b.source) then 0.3 else 1.0
  }

  // ----- the verdict -----

  datatype Components = Components(
    spatial: real, temporal: real, classAgreement: real, direction: real, independence: real)

  datatype Decision = Merge | Review | Distinct

  datatype MatchScore = MatchScore(value: real, decision: Decision, components: Components)

  function Compare(groups: Groups, a: Candidate, b: Candidate): Components {
    Components(
      ScoreSpatial(a, b), ScoreTemporal(a, b), ScoreClass(a, b), ScoreDirection(a, b),
      ScoreIndependence(groups, a, b))
  }

  function Weighted(c: Components): real {
    0.4 * c.spatial + 0.25 * c.temporal + 0.2 * c.classAgreement + 0.1 * c.direction
    + 0.05 * c.independence
  }

  /** The four necessary conditions. */
  predicate GatesPass(c: Components) {
    c.spatial > 0.0 && c.temporal > 0.0 && c.classAgreement == 1.0 && c.direction > 0.0
  }

  function DecisionOf(value: real): Decision {
    if value >= MERGE_THRESHOLD then Merge
    else if value >= REVIEW_THRESHOLD then Review
    else Distinct
  }

  function ScoreMatch(groups: Groups, a: Candidate, b: Candidate): MatchScore {
    var c := Compare(groups, a, b);
    var weighted := Weighted(c);
    var value := if GatesPass(c) then weighted else MinReal(weighted, REVIEW_THRESHOLD - 0.01);
    var rounded := Round4(MaxReal(0.0, MinReal(1.0, value)));
    MatchScore(rounded, DecisionOf(rounded), c)
  }

  function Decide(groups: Groups, a: Candidate, b: Candidate): Decision {
    ScoreMatch(groups, a, b).decision
  }

  // ----- where rounding puts the two cuts -----

  lemma {:induction false} RoundedCut(x: real, n: int)
    requires n % 2 == 0
    ensures Round4(x) >= n as real / 10000.0 <==> x >= (n as real - 0.5) / 10000.0
  {
    var s := x * 10000.0;
    if s >= n as real - 0.5 {
      RoundMonotone(n as real - 0.5, s);
      assert (n as real - 0.5).Floor == n - 1;
      assert RoundHalfEven(n as real - 0.5) == n;
    } else {
      assert RoundHalfEven(s) < n by {
        assert s.Floor <= n - 1;
        if s.Floor == n - 1 {
          assert s - s.Floor as real < 0.5;
        }
      }
    }
  }

  /** A score lies between 0 and 1 and the bands are cut on the unrounded weighted
      sum at 0.74995 and 0.49995: rounding lifts the last half ten-thousandth. A
      failed gate always reads as distinct. */
  lemma {:induction false} DecisionCuts(groups: Groups, a: Candidate, b: Candidate)
    ensures var c := Compare(groups, a, b);
            var d := Decide(groups, a, b);
            && 0.0 <= ScoreMatch(groups, a, b).value <= 1.0
            && (d == Merge <==> GatesPass(c) && Weighted(c) >= 0.74995)
            && (d == Distinct <==> !GatesPass(c) || Weighted(c) < 0.49995)
  {
    var c := Compare(groups, a, b);
    var weighted := Weighted(c);
    var value := if GatesPass(c) then weighted else MinReal(weighted, REVIEW_THRESHOLD - 0.01);
    var clipped := MaxReal(0.0, MinReal(1.0, value));
    Round4Monotone(0.0, clipped);
    Round4Monotone(clipped, 1.0);
    Round4Fixes(0);
    Round4Fixes(10000);
    RoundedCut(clipped, 7500);
    RoundedCut(clipped, 5000);
  }

  // ----- what a merge requires -----

  /** Gap in miles between two placed extents, negative when they overlap. */
  function Gap(a: Candidate, b: Candidate): real
    requires Resolved(a) && Resolved(b)
  {
    MaxReal(MinReal(a.begin.r, a.end.r), MinReal(b.begin.r, b.end.r))
    - MinReal(MaxReal(a.begin.r, a.end.r), MaxReal(b.begin.r, b.end.r))
  }

  /** Extents more than the tolerance apart never merge. */
  lemma {:induction false} MergeIsNear(groups: Groups, a: Candidate, b: Candidate)
    requires Resolved(a) && Resolved(b)
    requires Decide(groups, a, b) == Merge
    ensures Gap(a, b) <= SPATIAL_TOLERANCE_MILES
  {
    DecisionCuts(groups, a, b);
    assert Gap(a, b) > SPATIAL_TOLERANCE_MILES ==> ScoreSpatial(a, b) <= 0.3;
  }

  /** ... but reports that agree on everything else are reviewed as long as the tolerance
      leaves them less than five miles apart, and no longer. */
  lemma {:induction false} NearMissReachesReview(groups: Groups, a: Candidate, b: Candidate)
    requires Resolved(a) && Resolved(b) && Gap(a, b) > SPATIAL_TOLERANCE_MILES
    requires a.eventClass == b.eventClass && ScoreTemporal(a, b) == 1.0 && ScoreDirection(a, b) > 0.0
    ensures Decide(groups, a, b) == Review <==> Gap(a, b) - SPATIAL_TOLERANCE_MILES < NEAR_MISS_DECAY_MILES
    ensures Decide(groups, a, b) != Merge
  {
    DecisionCuts(groups, a, b);
    NearMissScore(a, b);
  }

  lemma {:induction false} NearMissScore(a: Candidate, b: Candidate)
    requires Resolved(a) && Resolved(b) && Gap(a, b) > SPATIAL_TOLERANCE_MILES
    ensures ScoreSpatial(a, b) <= 0.3
    ensures ScoreSpatial(a, b) > 0.0 <==> Gap(a, b) - SPATIAL_TOLERANCE_MILES < NEAR_MISS_DECAY_MILES
  {
    var o := MeasureOverlap((a.begin, a.end), (b.begin, b.end), SPATIAL_TOLERANCE_MILES);
    assert !o.overlaps && o.gapMiles == Num(Gap(a, b) - SPATIAL_TOLERANCE_MILES);
  }

  /** Seconds between the end of the earlier event and the start of the later one. */
  function Pause(a: Candidate, b: Candidate): real
    requires a.start.Some? && b.start.Some?
  {
    MaxReal(a.start.value, b.start.value) - MinReal(EndTime(a), EndTime(b))
  }

  /** The temporal score dies out at the reopen window of the first event's class. */
  lemma {:induction false} TemporalReach(a: Candidate, b: Candidate)
    requires a.start.Some? && b.start.Some?
    ensures ScoreTemporal(a, b) > 0.0 ==> Pause(a, b) < ReopenWindowSeconds(a.eventClass)
  {
    var window := ReopenWindowSeconds(a.eventClass);
    if Pause(a, b) >= window {
      DecayVanishes(-Pause(a, b), window);
    }
  }

  lemma {:induction false} DecayVanishes(overlap: real, window: real)
    requires window > 0.0 && overlap <= -window
    ensures Round4(MaxReal(0.0, 1.0 + overlap / window)) == 0.0
  {
    assert overlap / window <= -1.0;
    Round4Fixes(0);
  }

  lemma {:induction false} MergeAgrees(groups: Groups, a: Candidate, b: Candidate)
    requires Decide(groups, a, b) == Merge
    ensures a.eventClass == b.eventClass
    ensures a.direction == b.direction || a.direction in {BOTH, UNKNOWN} || b.direction in {BOTH, UNKNOWN}
    ensures a.start.Some? && b.start.Some?
    ensures Pause(a, b) < ReopenWindowSeconds(a.eventClass)
  {
    DecisionCuts(groups, a, b);
    TemporalReach(a, b);
  }

  /** Agreement on place and class and compatible directions merge whoever reports,
      down to a temporal score of 0.3. */
  lemma {:induction false} CoincidentReportsMerge(groups: Groups, a: Candidate, b: Candidate)
    requires ScoreSpatial(a, b) == 1.0 && ScoreTemporal(a, b) >= 0.3
    requires a.eventClass == b.eventClass && ScoreDirection(a, b) > 0.0
    ensures Decide(groups, a, b) == Merge
  {
    DecisionCuts(groups, a, b);
  }

  // ----- symmetry -----

  /** Widening one range or the other either covers the shorter range both ways or
      overlaps by the same amount both ways. */
  lemma {:induction false} WideningEitherRange(a: Candidate, b: Candidate)
    requires Resolved(a) && Resolved(b)
    ensures var ab := MeasureOverlap((a.begin, a.end), (b.begin, b.end), SPATIAL_TOLERANCE_MILES);
            var ba := MeasureOverlap((b.begin, b.end), (a.begin, a.end), SPATIAL_TOLERANCE_MILES);
            var shorter := MinReal(Length(a).r, Length(b).r);
            && ab.overlaps == ba.overlaps
            && ab.gapMiles == ba.gapMiles
            && ab.overlapMiles.Num? && ba.overlapMiles.Num?
            && (ab.overlapMiles == ba.overlapMiles
                || (ab.overlapMiles.r >= shorter && ba.overlapMiles.r >= shorter))
  {
  }

  lemma {:induction false} SpatialSymmetric(a: Candidate, b: Candidate)
    requires Resolved(a) == Resolved(b)
    requires Conflated(a) && Conflated(b)
    ensures ScoreSpatial(a, b) == ScoreSpatial(b, a)
  {
    if Resolved(a) {
      WideningEitherRange(a, b);
      var ab := MeasureOverlap((a.begin, a.end), (b.begin, b.end), SPATIAL_TOLERANCE_MILES);
      var ba := MeasureOverlap((b.begin, b.end), (a.begin, a.end), SPATIAL_TOLERANCE_MILES);
      var shorter := MinReal(Length(a).r, Length(b).r);
      if ab.overlaps && ab.overlapMiles != ba.overlapMiles {
        FullCoverage(ab.overlapMiles, Num(shorter));
        FullCoverage(ba.overlapMiles, Num(shorter));
      }
    }
  }

  /** All components but the temporal one are the same in both orders. */
  lemma {:induction false} ComponentsSymmetric(groups: Groups, a: Candidate, b: Candidate)
    requires Resolved(a) == Resolved(b) && Conflated(a) && Conflated(b)
    ensures Compare(groups, a, b) == Compare(groups, b, a).(temporal := ScoreTemporal(a, b))
  {
    SpatialSymmetric(a, b);
    assert {a.eventClass, b.eventClass} == {b.eventClass, a.eventClass};
  }

  lemma {:induction false} SameClassSameTime(a: Candidate, b: Candidate)
    requires a.eventClass == b.eventClass
    ensures ScoreTemporal(a, b) == ScoreTemporal(b, a)
  {}

  /** For two placed extents of one class the whole score is symmetric; for two
      different classes only the verdict is, because the temporal window is the
      first event's. */
  lemma {:induction false} ScoreSymmetric(groups: Groups, a: Candidate, b: Candidate)
    requires Resolved(a) == Resolved(b)
    requires Conflated(a) && Conflated(b)
    ensures Decide(groups, a, b) == Decide(groups, b, a)
    ensures a.eventClass == b.eventClass ==> ScoreMatch(groups, a, b) == ScoreMatch(groups, b, a)
  {
    ComponentsSymmetric(groups, a, b);
    if a.eventClass == b.eventClass {
      SameClassSameTime(a, b);
    } else {
      DecisionCuts(groups, a, b);
      DecisionCuts(groups, b, a);
    }
  }

  /** The whole score is the same in both orders exactly when the temporal scores are. */
  lemma {:induction false} ScoreSymmetricIff(groups: Groups, a: Candidate, b: Candidate)
    requires Resolved(a) == Resolved(b)
    requires Conflated(a) && Conflated(b)
    ensures ScoreMatch(groups, a, b) == ScoreMatch(groups, b, a) <==> ScoreTemporal(a, b) == ScoreTemporal(b, a)
  {
    ComponentsSymmetric(groups, a, b);
  }

  /** Share of the reopen window of `c` that is left after a pause. */
  function WindowLeft(c: EventClass, pause: real): real {
    MaxReal(0.0, 1.0 - pause / ReopenWindowSeconds(c))
  }

  lemma {:induction false} TemporalByPause(a: Candidate, b: Candidate)
    requires a.start.Some? && b.start.Some?
    ensures ScoreTemporal(a, b) == if Pause(a, b) <= 0.0 then 1.0 else Round4(WindowLeft(a.eventClass, Pause(a, b)))
  {
    assert -Pause(a, b) / ReopenWindowSeconds(a.eventClass) == -(Pause(a, b) / ReopenWindowSeconds(a.eventClass));
  }

  lemma {:induction false} NothingLeft(c: EventClass, pause: real)
    requires pause >= ReopenWindowSeconds(c)
    ensures WindowLeft(c, pause) == 0.0
  {
    assert pause / ReopenWindowSeconds(c) >= 1.0;
  }

  lemma {:induction false} RoundsNear(x: real)
    ensures x - 0.00005 <= Round4(x) <= x + 0.00005
  {
    var n := RoundHalfEven(x * 10000.0);
    assert n as real - 0.5 <= x * 10000.0 <= n as real + 0.5;
  }

  /** The temporal scores agree when a start is missing, when the events overlap, when their
      reopen windows are as long as each other, and when the pause outlasts both windows;
      they differ whenever it leaves shares of the two that differ by more than a
      ten-thousandth. */
  lemma {:induction false} TemporalSymmetricWhen(a: Candidate, b: Candidate)
    ensures a.start.None? || b.start.None? ==> ScoreTemporal(a, b) == ScoreTemporal(b, a)
    ensures a.start.Some? && b.start.Some? ==>
      var pause := Pause(a, b);
      var x, y := WindowLeft(a.eventClass, pause), WindowLeft(b.eventClass, pause);
      && (pause <= 0.0 || ReopenWindowSeconds(a.eventClass) == ReopenWindowSeconds(b.eventClass)
          || (pause >= ReopenWindowSeconds(a.eventClass) && pause >= ReopenWindowSeconds(b.eventClass)) ==>
            ScoreTemporal(a, b) == ScoreTemporal(b, a))
      && (pause > 0.0 && (x > y + 0.0001 || y > x + 0.0001) ==> ScoreTemporal(a, b) != ScoreTemporal(b, a))
  {
    if a.start.Some? && b.start.Some? {
      var pause := Pause(a, b);
      assert Pause(b, a) == pause;
      TemporalByPause(a, b);
      TemporalByPause(b, a);
      RoundsNear(WindowLeft(a.eventClass, pause));
      RoundsNear(WindowLeft(b.eventClass, pause));
      if pause >= ReopenWindowSeconds(a.eventClass) && pause >= ReopenWindowSeconds(b.eventClass) {
        NothingLeft(a.eventClass, pause);
        NothingLeft(b.eventClass, pause);
      }
    }
  }

  function WeatherReport(): Candidate {
    Candidate(Weather, Num(0.0), Num(9.0), EB, Some(5400.0), None, "a")
  }

  function CongestionReport(): Candidate {
    Candidate(Congestion, Num(20.0), Num(29.0), EB, Some(0.0), Some(0.0), "a")
  }

  /** Half of the weather's reopen window is six times the congestion's. */
  lemma {:induction false} ScoreNotSymmetricAcrossClasses(groups: Groups)
    ensures ScoreMatch(groups, WeatherReport(), CongestionReport()).value == 0.24
    ensures ScoreMatch(groups, CongestionReport(), WeatherReport()).value == 0.115
  {
    var a, b := WeatherReport(), CongestionReport();
    assert ScoreSpatial(a, b) == 0.0 && ScoreSpatial(b, a) == 0.0;
    assert ScoreTemporal(a, b) == 0.5 by {
      assert -5400.0 / 10800.0 == -0.5;
      Round4Fixes(5000);
    }
    assert ScoreTemporal(b, a) == 0.0 by { Round4Fixes(0); }
    assert ScoreClass(a, b) == 0.0 && ScoreClass(b, a) == 0.0 by {
      assert Weather in {a.eventClass, b.eventClass} && Congestion in {a.eventClass, b.eventClass};
      assert {a.eventClass, b.eventClass} !in RELATED_NOT_SAME;
      assert {b.eventClass, a.eventClass} == {a.eventClass, b.eventClass};
    }
    assert Weighted(Compare(groups, a, b)) == 0.24;
    assert Weighted(Compare(groups, b, a)) == 0.115;
    Round4Fixes(2400);
    Round4Fixes(1150);
  }

  /** An extent with no place, compared second, is scored as if it coincided; compared
      first, as if it were out of reach. */
  lemma {:induction false} UnplacedComparedSecond(a: Candidate, b: Candidate)
    requires Resolved(a) && Unresolved(b)
    ensures ScoreSpatial(a, b) == 1.0
    ensures ScoreSpatial(b, a) == 0.0
  {
    var o := MeasureOverlap((a.begin, a.end), (b.begin, b.end), SPATIAL_TOLERANCE_MILES);
    assert o.overlapMiles.r == Length(a).r + 1.0;
    FullCoverage(o.overlapMiles, Length(a));
  }

  /** What an unplaced report must share with a placed one to be merged with it: nothing
      about where either of them is. */
  predicate JoinsUnplaced(groups: Groups, placed: Candidate, unplaced: Candidate) {
    && placed.eventClass == unplaced.eventClass
    && ScoreDirection(placed, unplaced) > 0.0
    && ScoreTemporal(placed, unplaced) > 0.0
    && 0.25 * ScoreTemporal(placed, unplaced) + 0.1 * ScoreDirection(placed, unplaced)
       + 0.05 * ScoreIndependence(groups, placed, unplaced) >= 0.14995
  }

  /** An unplaced report merges with a placed one exactly when it is compared second and
      they agree on class, direction and time; compared first, with nothing at all. */
  lemma {:induction false} UnplacedMergesIff(groups: Groups, a: Candidate, u: Candidate)
    requires Unresolved(u) && Conflated(a)
    ensures Decide(groups, a, u) == Merge <==> Resolved(a) && JoinsUnplaced(groups, a, u)
    ensures Decide(groups, u, a) == Distinct
  {
    DecisionCuts(groups, a, u);
    DecisionCuts(groups, u, a);
    if Resolved(a) {
      UnplacedComparedSecond(a, u);
    }
  }

  /** Exactly when two conflated candidates get the same verdict in either order. */
  lemma {:induction false} DecisionSymmetricIff(groups: Groups, a: Candidate, b: Candidate)
    requires Conflated(a) && Conflated(b)
    ensures Decide(groups, a, b) == Decide(groups, b, a)
      <==> || Resolved(a) == Resolved(b)
           || a.eventClass != b.eventClass
           || ScoreTemporal(a, b) == 0.0
           || ScoreDirection(a, b) == 0.0
  {
    DecisionCuts(groups, a, b);
    DecisionCuts(groups, b, a);
    if Resolved(a) == Resolved(b) {
      ScoreSymmetric(groups, a, b);
    } else if a.eventClass == b.eventClass {
      assert ScoreTemporal(a, b) == ScoreTemporal(b, a);
      if Resolved(a) {
        UnplacedComparedSecond(a, b);
      } else {
        UnplacedComparedSecond(b, a);
      }
    }
  }
}
