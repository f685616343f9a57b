/** What each component of a match score is worth, written out over the fields of the two
    candidates (`core/matcher.py`), and what partial overlap does to the verdict. */
module ScoreMeaning {
  import opened Wrappers
  import opened Floats
  import opened Scoring

  // ----- where -----

  /** Miles that the second extent shares with the first one widened by half a mile. */
  function Shared(a: (real, real), b: (real, real)): real {
    MinReal(MaxReal(a.0, a.1) + 0.5, MaxReal(b.0, b.1)) - MaxReal(MinReal(a.0, a.1) - 0.5, MinReal(b.0, b.1))
  }

  function ShorterLength(a: (real, real), b: (real, real)): real {
    MinReal(AbsReal(a.1 - a.0), AbsReal(b.1 - b.0))
  }

  function Range(c: Candidate): (real, real)
    requires Resolved(c)
  {
    (c.begin.r, c.end.r)
  }

  /** Placed extents score the shared part of the shorter one, 1 if that is a point, and
      past the half mile a tenth of three that fades out over five miles. */
  lemma {:induction false} SpatialIs(a: Candidate, b: Candidate)
    requires Resolved(a) && Resolved(b)
    ensures var shared, shorter := Shared(Range(a), Range(b)), ShorterLength(Range(a), Range(b));
            ScoreSpatial(a, b)
            == if shared < 0.0 then 0.3 * MaxReal(0.0, 1.0 + shared / 5.0)
               else if shorter < 0.1 then 1.0
               else Round4(MinReal(1.0, shared / shorter))
  {
    var shared, shorter := Shared(Range(a), Range(b)), ShorterLength(Range(a), Range(b));
    var o := MeasureOverlap((a.begin, a.end), (b.begin, b.end), SPATIAL_TOLERANCE_MILES);
    assert o == if shared >= 0.0 then Overlap(true, Num(shared), Num(0.0)) else Overlap(false, Num(0.0), Num(-shared));
    assert Min(Length(a), Length(b)) == Num(shorter);
    if shared >= 0.0 && shorter >= 0.1 {
      CoverageIs(shared, shorter);
    }
  }

  lemma {:induction false} CoverageIs(shared: real, shorter: real)
    requires shared >= 0.0 && shorter >= 0.1
    ensures Coverage(Num(shared), Num(shorter)) == Round4(MinReal(1.0, shared / shorter))
  {}

  lemma {:induction false} HalfBelowOdd(n: int)
    requires n % 2 == 1
    ensures RoundHalfEven(n as real - 0.5) == n - 1
  {
    assert (n as real - 0.5).Floor == n - 1;
  }

  lemma {:induction false} RoundsTo(s: real, r: int, n: int)
    requires r as real + 0.5 >= s > n as real - 0.5
    ensures r >= n
  {
    assert r as real > n as real - 1.0;
  }

  lemma {:induction false} RoundsUpTo(s: real, n: int)
    requires n % 2 == 1
    ensures RoundHalfEven(s) >= n <==> s > n as real - 0.5
  {
    if s > n as real - 0.5 {
      RoundsTo(s, RoundHalfEven(s), n);
    } else {
      HalfBelowOdd(n);
      RoundMonotone(s, n as real - 0.5);
    }
  }

  /** Round4 reaches an odd number of ten-thousandths, and any cut above the even number
      before it, past the tie between the two: a tie goes to the even one. */
  lemma {:induction false} RoundedAbove(x: real, n: int, cut: real)
    requires n % 2 == 1 && (n - 1) as real / 10000.0 < cut <= n as real / 10000.0
    ensures Round4(x) >= cut <==> x > (n as real - 0.5) / 10000.0
  {
    RoundsUpTo(x * 10000.0, n);
    TenThousandths(RoundHalfEven(x * 10000.0), n, cut);
  }

  lemma {:induction false} TenThousandths(r: int, n: int, cut: real)
    requires (n - 1) as real / 10000.0 < cut <= n as real / 10000.0
    ensures r as real / 10000.0 >= cut <==> r >= n
  {
    if r < n {
      assert r <= n - 1;
    }
  }

  /** Two reports by independent sources that agree on class, direction and time, with
      extents within half a mile of each other that are not points: merged exactly when they
      share more than 37.485 % of the shorter one, kept apart exactly when they share next to
      nothing of it, reviewed in between. */
  lemma {:induction false} PartialOverlapVerdict(groups: Groups, a: Candidate, b: Candidate)
    requires Resolved(a) && Resolved(b)
    requires Shared(Range(a), Range(b)) >= 0.0 && ShorterLength(Range(a), Range(b)) >= 0.1
    requires a.eventClass == b.eventClass && a.direction == b.direction
    requires ScoreTemporal(a, b) == 1.0 && ScoreIndependence(groups, a, b) == 1.0
    ensures var shared, shorter := Shared(Range(a), Range(b)), ShorterLength(Range(a), Range(b));
            && (Decide(groups, a, b) == Merge <==> shared > 0.37485 * shorter)
            && (Decide(groups, a, b) == Distinct <==> shared <= 0.00005 * shorter)
  {
    var shared, shorter := Shared(Range(a), Range(b)), ShorterLength(Range(a), Range(b));
    ShareAgainst(shared, shorter, 0.37485);
    ShareAgainst(shared, shorter, 0.00005);
    SpatialIs(a, b);
    ShareCuts(shared / shorter);
    PositiveRounded(MinReal(1.0, shared / shorter));
    AgreeingVerdict(groups, a, b);
  }

  /** With everything else in agreement the spatial score alone decides. */
  lemma {:induction false} AgreeingVerdict(groups: Groups, a: Candidate, b: Candidate)
    requires a.eventClass == b.eventClass && a.direction == b.direction
    requires ScoreTemporal(a, b) == 1.0 && ScoreIndependence(groups, a, b) == 1.0
    ensures Decide(groups, a, b) == Merge <==> ScoreSpatial(a, b) >= 0.374875
    ensures Decide(groups, a, b) == Distinct <==> ScoreSpatial(a, b) <= 0.0
  {
    DecisionCuts(groups, a, b);
  }

  lemma {:induction false} ShareCuts(share: real)
    ensures Round4(MinReal(1.0, share)) >= 0.374875 <==> share > 0.37485
    ensures Round4(MinReal(1.0, share)) >= 0.0001 <==> share > 0.00005
  {
    RoundedAbove(MinReal(1.0, share), 3749, 0.374875);
    RoundedAbove(MinReal(1.0, share), 1, 0.0001);
  }

  lemma {:induction false} PositiveRounded(x: real)
    ensures Round4(x) > 0.0 <==> Round4(x) >= 0.0001
  {
    TenThousandths(RoundHalfEven(x * 10000.0), 1, 0.0001);
  }

  lemma {:induction false} ShareAgainst(shared: real, shorter: real, cut: real)
    requires shorter > 0.0
    ensures shared / shorter > cut <==> shared > cut * shorter
  {
    var share := shared / shorter;
    assert share * shorter == shared;
    assert (share - cut) * shorter == shared - cut * shorter;
    assert share > cut ==> (share - cut) * shorter > 0.0;
    assert share <= cut ==> (share - cut) * shorter <= 0.0;
  }

  // ----- when -----

  /** 2999-12-31T00:00:00Z stands for an end that is absent or does not parse. */
  function EndOrFarFuture(c: Candidate): real {
    match c.finish
    case Some(end) => end
    case None => 32503593600.0
  }

  /** Without a start the score is 0; otherwise events that overlap in time score 1 and a
      pause between them its share of the first event's window that is left. */
  lemma {:induction false} TemporalIs(a: Candidate, b: Candidate)
    ensures a.start.None? || b.start.None? ==> ScoreTemporal(a, b) == 0.0
    ensures a.start.Some? && b.start.Some? ==>
      var pause := MaxReal(a.start.value, b.start.value) - MinReal(EndOrFarFuture(a), EndOrFarFuture(b));
      ScoreTemporal(a, b)
      == if pause <= 0.0 then 1.0 else Round4(MaxReal(0.0, 1.0 - pause / ReopenWindowSeconds(a.eventClass)))
  {
    if a.start.Some? && b.start.Some? {
      TemporalByPause(a, b);
    }
  }

  const MINUTE := 60.0
  const HOUR := 3600.0
  const DAY := 86400.0

  lemma {:induction false} WindowsAre()
    ensures ReopenWindowSeconds(Congestion) == 15.0 * MINUTE
    ensures ReopenWindowSeconds(Incident) == ReopenWindowSeconds(TruckParking) == HOUR
    ensures forall name :: ReopenWindowSeconds(Unrecognized(name)) == HOUR
    ensures ReopenWindowSeconds(Closure) == ReopenWindowSeconds(RoadSurface) == 2.0 * HOUR
    ensures ReopenWindowSeconds(Weather) == 3.0 * HOUR
    ensures ReopenWindowSeconds(WorkZone) == 7.0 * DAY
    ensures ReopenWindowSeconds(DimensionalRestriction) == 30.0 * DAY
  {}

  // ----- what, which way, who -----

  /** Pairs of classes that are related without being the same. */
  predicate Related(x: EventClass, y: EventClass) {
    || (x == Weather && y == RoadSurface) || (x == RoadSurface && y == Weather)
    || (x == Incident && y in {Closure, Congestion}) || (y == Incident && x in {Closure, Congestion})
    || (x == WorkZone && y == Closure) || (x == Closure && y == WorkZone)
  }

  lemma {:induction false} ClassIs(a: Candidate, b: Candidate)
    ensures ScoreClass(a, b)
         == if a.eventClass == b.eventClass then 1.0
            else if Related(a.eventClass, b.eventClass) then 0.15
            else 0.0
  {
    var x, y := a.eventClass, b.eventClass;
    PairIs(x, y, Weather, RoadSurface);
    PairIs(x, y, Incident, Closure);
    PairIs(x, y, Incident, Congestion);
    PairIs(x, y, WorkZone, Closure);
  }

  lemma {:induction false} PairIs(x: EventClass, y: EventClass, p: EventClass, q: EventClass)
    requires p != q
    ensures {x, y} == {p, q} <==> (x == p && y == q) || (x == q && y == p)
  {
    assert p in {p, q} && q in {p, q} && x in {x, y} && y in {x, y};
  }

  /** Opposite carriageways exclude each other; an unstated direction is worth less than
      one that covers both. */
  lemma {:induction false} DirectionIs(a: Candidate, b: Candidate)
    ensures ScoreDirection(a, b) == 1.0 <==> a.direction == b.direction
    ensures ScoreDirection(a, b) == 0.0 <==> {a.direction, b.direction} == {EB, WB}
    ensures ScoreDirection(a, b) == 0.6 <==> a.direction != b.direction && UNKNOWN in {a.direction, b.direction}
    ensures ScoreDirection(a, b) == 0.8
       <==> a.direction != b.direction && UNKNOWN !in {a.direction, b.direction} && BOTH in {a.direction, b.direction}
  {
    var x, y := a.direction, b.direction;
    assert x in {x, y} && y in {x, y} && EB in {EB, WB} && WB in {EB, WB};
  }

  /** The agency a source speaks for. */
  function Voice(groups: Groups, source: string): string {
    match if source in groups then Some(groups[source]) else None
    case Some(agency) => agency
    case None => source
  }

  lemma {:induction false} IndependenceIs(groups: Groups, a: Candidate, b: Candidate)
    ensures ScoreIndependence(groups, a, b) in {0.3, 1.0}
    ensures ScoreIndependence(groups, a, b) == 1.0 <==> Voice(groups, a.source) != Voice(groups, b.source)
  {}

  // ----- the value -----

  /** The five weights and what a failed gate costs. */
  lemma {:induction false} ValueIs(groups: Groups, a: Candidate, b: Candidate)
    ensures var sum := 0.4 * ScoreSpatial(a, b) + 0.25 * ScoreTemporal(a, b) + 0.2 * ScoreClass(a, b)
                       + 0.1 * ScoreDirection(a, b) + 0.05 * ScoreIndependence(groups, a, b);
            var passed := ScoreSpatial(a, b) > 0.0 && ScoreTemporal(a, b) > 0.0
                          && a.eventClass == b.eventClass && {a.direction, b.direction} != {EB, WB};
            ScoreMatch(groups, a, b).value == Round4(if passed then sum else MinReal(sum, 0.49))
  {
    ClassIs(a, b);
    DirectionIs(a, b);
  }

  // ----- consecutive work zones -----

  function Zone(begin: real, end: real, source: string): Candidate {
    Candidate(WorkZone, Num(begin), Num(end), EB, Some(0.0), None, source)
  }

  /** Work zones that meet end to end go to review instead of becoming one event. */
  lemma {:induction false} ConsecutiveZonesReviewed()
    ensures Decide(map[], Zone(0.0, 10.0, "a"), Zone(10.0, 20.0, "b")) == Review
  {
    var a, b := Zone(0.0, 10.0, "a"), Zone(10.0, 20.0, "b");
    assert "a"[0] != "b"[0];
    assert Shared(Range(a), Range(b)) == 0.5 && ShorterLength(Range(a), Range(b)) == 10.0;
    PartialOverlapVerdict(map[], a, b);
  }
}
