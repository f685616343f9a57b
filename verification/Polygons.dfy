/** Even-odd containment: `_point_in_polygon`, `_on_segment` and `_polygon_rings` in
    `core/lrs.py`, in exact arithmetic on the plane. */
module Polygons {
  import opened Wrappers
  import opened Floats

  type Coord = (real, real)
  type Ring = seq<Coord>
  type Polygon = seq<Ring>

  const TOLERANCE := 0.000000000001

  function Cross(p: Coord, a: Coord, b: Coord): real {
    (p.0 - a.0) * (b.1 - a.1) - (p.1 - a.1) * (b.0 - a.0)
  }

  predicate OnSegment(p: Coord, a: Coord, b: Coord) {
    && AbsReal(Cross(p, a, b)) <= TOLERANCE
    && MinReal(a.0, b.0) - TOLERANCE <= p.0 <= MaxReal(a.0, b.0) + TOLERANCE
    && MinReal(a.1, b.1) - TOLERANCE <= p.1 <= MaxReal(a.1, b.1) + TOLERANCE
  }

  /** Half-open in y, so a vertex belongs to one of its two edges. */
  predicate Straddles(y: real, a: Coord, b: Coord) {
    (a.1 > y) != (b.1 > y)
  }

  function CrossingX(y: real, a: Coord, b: Coord): real
    requires a.1 != b.1
  {
    a.0 + (y - a.1) / (b.1 - a.1) * (b.0 - a.0)
  }

  predicate Crosses(p: Coord, a: Coord, b: Coord) {
    Straddles(p.1, a, b) && p.0 < CrossingX(p.1, a, b)
  }

  // ----- what the test decides -----

  function Crossings(p: Coord, ring: Ring): nat {
    if |ring| < 2 then 0
    else (if Crosses(p, ring[0], ring[1]) then 1 else 0) + Crossings(p, ring[1..])
  }

  predicate Touches(p: Coord, ring: Ring) {
    |ring| >= 2 && (OnSegment(p, ring[0], ring[1]) || Touches(p, ring[1..]))
  }

  function TotalCrossings(p: Coord, polygon: Polygon): nat {
    if polygon == [] then 0 else Crossings(p, polygon[0]) + TotalCrossings(p, polygon[1..])
  }

  predicate TouchesAny(p: Coord, polygon: Polygon) {
    exists k | 0 <= k < |polygon| :: Touches(p, polygon[k])
  }

  predicate InOrOn(p: Coord, polygon: Polygon) {
    TouchesAny(p, polygon) || TotalCrossings(p, polygon) % 2 == 1
  }

  predicate Covers(p: Coord, polygons: seq<Polygon>) {
    exists k | 0 <= k < |polygons| :: InOrOn(p, polygons[k])
  }

  // ----- the method -----

  /** The parity after the rest of a ring. */
  predicate Parity(p: Coord, ring: Ring, inside: bool) {
    inside != (Crossings(p, ring) % 2 == 1)
  }

  lemma {:induction false} EdgeFirst(p: Coord, ring: Ring, i: nat, inside: bool)
    requires i + 1 < |ring|
    ensures Touches(p, ring[i..]) == (OnSegment(p, ring[i], ring[i + 1]) || Touches(p, ring[i + 1..]))
    ensures Parity(p, ring[i..], inside) == Parity(p, ring[i + 1..], inside != Crosses(p, ring[i], ring[i + 1]))
  {
    assert ring[i..][1..] == ring[i + 1..];
  }

  method CrossEdge(p: Coord, a: Coord, b: Coord, inside: bool) returns (inside': bool)
    ensures inside' == (inside != Crosses(p, a, b))
  {
    inside' := inside;
    if Straddles(p.1, a, b) {
      var crossingX := CrossingX(p.1, a, b);
      if p.0 < crossingX {
        inside' := !inside';
      }
    }
  }

  method ScanRing(p: Coord, ring: Ring, inside: bool) returns (touches: bool, inside': bool)
    ensures touches == Touches(p, ring)
    ensures !touches ==> inside' == Parity(p, ring, inside)
  {
    inside' := inside;
    assert ring[0..] == ring;
    var i := 0;
    while i < |ring| - 1
      invariant 0 <= i && (i == 0 || i <= |ring| - 1)
      invariant Touches(p, ring) == Touches(p, ring[i..])
      invariant Parity(p, ring, inside) == Parity(p, ring[i..], inside')
    {
      EdgeFirst(p, ring, i, inside');
      var on := OnSegment(p, ring[i], ring[i + 1]);
      if on {
        return true, inside';
      }
      inside' := CrossEdge(p, ring[i], ring[i + 1], inside');
      i := i + 1;
    }
    touches := false;
  }

  method PointInPolygon(p: Coord, polygons: seq<Polygon>) returns (r: bool)
    ensures r == Covers(p, polygons)
  {
    for k := 0 to |polygons|
      invariant forall j | 0 <= j < k :: !InOrOn(p, polygons[j])
    {
      var inside := false;
      var rings := polygons[k];
      assert rings[0..] == rings;
      for i := 0 to |rings|
        invariant forall j | 0 <= j < i :: !Touches(p, rings[j])
        invariant (TotalCrossings(p, rings) % 2 == 1) == (inside != (TotalCrossings(p, rings[i..]) % 2 == 1))
      {
        assert rings[i..][1..] == rings[i + 1..];
        var touches, next := ScanRing(p, rings[i], inside);
        if touches {
          assert InOrOn(p, polygons[k]);
          return true;
        }
        inside := next;
      }
      if inside {
        assert InOrOn(p, polygons[k]);
        return true;
      }
    }
    return false;
  }

  // ----- one edge, either way round -----

  lemma {:induction false} CrossingXSymmetric(y: real, a: Coord, b: Coord)
    requires a.1 != b.1
    ensures CrossingX(y, a, b) == CrossingX(y, b, a)
  {
    var d := b.1 - a.1;
    var t, u := (y - a.1) / d, (y - b.1) / (a.1 - b.1);
    assert t * d == y - a.1;
    assert u * d == b.1 - y by {
      assert u * (a.1 - b.1) == y - b.1;
      assert u * (a.1 - b.1) == -(u * d);
    }
    assert t * d + u * d == d by {
      calc {
        t * d + u * d;
        (y - a.1) + (b.1 - y);
        d;
      }
    }
    OnlyOne(t, u, d);
    assert t == 1.0 - u;
    var w := b.0 - a.0;
    assert (1.0 - u) * w == w - u * w;
    assert u * (a.0 - b.0) == -(u * w);
  }

  lemma {:induction false} OnlyOne(t: real, u: real, d: real)
    requires d != 0.0 && t * d + u * d == d
    ensures t + u == 1.0
  {
    assert (t + u - 1.0) * d == t * d + u * d - d;
  }

  lemma {:induction false} CrossSymmetric(p: Coord, a: Coord, b: Coord)
    ensures Cross(p, a, b) == -Cross(p, b, a)
  {
    var pX, pY, aX, aY, bX, bY := p.0, p.1, a.0, a.1, b.0, b.1;
    assert (pX - aX) * (bY - aY) == pX * bY - pX * aY - aX * bY + aX * aY;
    assert (pY - aY) * (bX - aX) == pY * bX - pY * aX - aY * bX + aY * aX;
    assert (pX - bX) * (aY - bY) == pX * aY - pX * bY - bX * aY + bX * bY;
    assert (pY - bY) * (aX - bX) == pY * aX - pY * bX - bY * aX + bY * bX;
  }

  lemma {:induction false} EdgeSymmetric(p: Coord, a: Coord, b: Coord)
    ensures OnSegment(p, a, b) == OnSegment(p, b, a) && Crosses(p, a, b) == Crosses(p, b, a)
  {
    CrossSymmetric(p, a, b);
    if Straddles(p.1, a, b) {
      CrossingXSymmetric(p.1, a, b);
    }
  }

  // ----- rings -----

  /** Two stretches of a ring that share the vertex `v`. */
  lemma {:induction false} RingSplits(p: Coord, a: Ring, v: Coord, b: Ring)
    ensures Crossings(p, a + [v] + b) == Crossings(p, a + [v]) + Crossings(p, [v] + b)
    ensures Touches(p, a + [v] + b) == (Touches(p, a + [v]) || Touches(p, [v] + b))
    decreases |a|
  {
    if a == [] {
      assert a + [v] + b == [v] + b && a + [v] == [v];
    } else {
      assert (a + [v] + b)[1..] == a[1..] + [v] + b && (a + [v])[1..] == a[1..] + [v];
      assert (a + [v] + b)[1] == (a + [v])[1];
      RingSplits(p, a[1..], v, b);
    }
  }

  function Reversed(ring: Ring): (r: Ring)
    ensures |r| == |ring|
    ensures ring != [] ==> r[|r| - 1] == ring[0]
  {
    if ring == [] then [] else Reversed(ring[1..]) + [ring[0]]
  }

  /** Walking a ring backwards changes nothing. */
  lemma {:induction false} ReversalIrrelevant(p: Coord, ring: Ring)
    ensures Crossings(p, Reversed(ring)) == Crossings(p, ring)
    ensures Touches(p, Reversed(ring)) == Touches(p, ring)
    decreases |ring|
  {
    if |ring| >= 2 {
      var rest := ring[1..];
      var back := Reversed(rest);
      ReversalIrrelevant(p, rest);
      assert back == back[..|back| - 1] + [rest[0]];
      RingSplits(p, back[..|back| - 1], rest[0], [ring[0]]);
      EdgeSymmetric(p, ring[0], rest[0]);
      var edge := [rest[0]] + [ring[0]];
      assert edge == [rest[0], ring[0]] && edge[1..] == [ring[0]];
    } else if |ring| == 1 {
      assert Reversed(ring[1..]) == [];
    }
  }

  predicate Closed(ring: Ring) {
    ring != [] && ring[0] == ring[|ring| - 1]
  }

  /** The same closed ring, written from its k-th vertex on. */
  function StartedAt(ring: Ring, k: nat): Ring
    requires k < |ring|
  {
    ring[k..] + ring[1..k + 1]
  }

  lemma {:induction false} StartIrrelevant(p: Coord, ring: Ring, k: nat)
    requires Closed(ring) && k < |ring|
    ensures Closed(StartedAt(ring, k))
    ensures Crossings(p, StartedAt(ring, k)) == Crossings(p, ring)
    ensures Touches(p, StartedAt(ring, k)) == Touches(p, ring)
  {
    var last := |ring| - 1;
    RingSplits(p, ring[..k], ring[k], ring[k + 1..]);
    assert ring == ring[..k] + [ring[k]] + ring[k + 1..];
    assert ring[..k] + [ring[k]] == ring[..k + 1] && [ring[k]] + ring[k + 1..] == ring[k..];
    RingSplits(p, ring[k..last], ring[last], ring[1..k + 1]);
    assert ring[k..last] + [ring[last]] == ring[k..];
    assert [ring[last]] + ring[1..k + 1] == ring[..k + 1];
  }

  // ----- order of rings and parts -----

  lemma {:induction false} WithoutRing(p: Coord, polygon: Polygon, k: nat)
    requires k < |polygon|
    ensures TotalCrossings(p, polygon) == Crossings(p, polygon[k]) + TotalCrossings(p, polygon[..k] + polygon[k + 1..])
    decreases k
  {
    if k == 0 {
      assert polygon[..0] + polygon[1..] == polygon[1..];
    } else {
      WithoutRing(p, polygon[1..], k - 1);
      var rest := polygon[..k] + polygon[k + 1..];
      assert rest[1..] == polygon[1..][..k - 1] + polygon[1..][k..];
    }
  }

  lemma {:induction false} RestsMatch<T>(a: seq<T>, b: seq<T>, k: nat)
    requires a != [] && k < |b| && multiset(a) == multiset(b) && b[k] == a[0]
    ensures multiset(a[1..]) == multiset(b[..k] + b[k + 1..])
  {
    assert a == [a[0]] + a[1..];
    assert b == b[..k] + [b[k]] + b[k + 1..];
    assert multiset(a[1..]) == multiset(a) - multiset{a[0]};
    assert multiset(b[..k] + b[k + 1..]) == multiset(b) - multiset{b[k]};
  }

  lemma {:induction false} RingOrderCounts(p: Coord, a: Polygon, b: Polygon)
    requires multiset(a) == multiset(b)
    ensures TotalCrossings(p, a) == TotalCrossings(p, b)
    decreases |a|
  {
    if a == [] {
      assert |multiset(b)| == 0;
    } else {
      assert a[0] in multiset(b);
      var k :| 0 <= k < |b| && b[k] == a[0];
      WithoutRing(p, b, k);
      RestsMatch(a, b, k);
      RingOrderCounts(p, a[1..], b[..k] + b[k + 1..]);
    }
  }

  lemma {:induction false} SameRings(p: Coord, a: Polygon, b: Polygon)
    requires multiset(a) == multiset(b) && TouchesAny(p, a)
    ensures TouchesAny(p, b)
  {
    var k :| 0 <= k < |a| && Touches(p, a[k]);
    assert a[k] in multiset(b);
    var j :| 0 <= j < |b| && b[j] == a[k];
  }

  /** The order of a polygon's rings is irrelevant: which one is the exterior is never
      asked. */
  lemma {:induction false} RingOrderIrrelevant(p: Coord, a: Polygon, b: Polygon)
    requires multiset(a) == multiset(b)
    ensures InOrOn(p, a) == InOrOn(p, b)
  {
    RingOrderCounts(p, a, b);
    if TouchesAny(p, a) {
      SameRings(p, a, b);
    }
    if TouchesAny(p, b) {
      SameRings(p, b, a);
    }
  }

  /** So is the order of the parts. */
  lemma {:induction false} PartOrderIrrelevant(p: Coord, a: seq<Polygon>, b: seq<Polygon>)
    requires multiset(a) == multiset(b)
    ensures Covers(p, a) == Covers(p, b)
  {
    if Covers(p, a) {
      SameParts(p, a, b);
    }
    if Covers(p, b) {
      SameParts(p, b, a);
    }
  }

  lemma {:induction false} SameParts(p: Coord, a: seq<Polygon>, b: seq<Polygon>)
    requires multiset(a) == multiset(b) && Covers(p, a)
    ensures Covers(p, b)
  {
    var k :| 0 <= k < |a| && InOrOn(p, a[k]);
    assert a[k] in multiset(b);
    var j :| 0 <= j < |b| && b[j] == a[k];
  }

  /** A ring replaced by one that crosses and touches alike. */
  lemma {:induction false} RingReplaced(p: Coord, polygon: Polygon, k: nat, ring: Ring)
    requires k < |polygon|
    requires Crossings(p, ring) == Crossings(p, polygon[k]) && Touches(p, ring) == Touches(p, polygon[k])
    ensures InOrOn(p, polygon[k := ring]) == InOrOn(p, polygon)
  {
    var other := polygon[k := ring];
    WithoutRing(p, polygon, k);
    WithoutRing(p, other, k);
    assert other[..k] + other[k + 1..] == polygon[..k] + polygon[k + 1..];
    assert TouchesAny(p, other) == TouchesAny(p, polygon) by {
      if TouchesAny(p, polygon) {
        var j :| 0 <= j < |polygon| && Touches(p, polygon[j]);
        assert Touches(p, other[j]);
      }
      if TouchesAny(p, other) {
        var j :| 0 <= j < |other| && Touches(p, other[j]);
        assert Touches(p, polygon[j]);
      }
    }
  }

  /** Containment does not depend on the direction or the starting vertex of any ring. */
  lemma {:induction false} RingNotationIrrelevant(p: Coord, polygon: Polygon, k: nat, start: nat)
    requires k < |polygon|
    ensures InOrOn(p, polygon[k := Reversed(polygon[k])]) == InOrOn(p, polygon)
    ensures Closed(polygon[k]) && start < |polygon[k]| ==>
      InOrOn(p, polygon[k := StartedAt(polygon[k], start)]) == InOrOn(p, polygon)
  {
    ReversalIrrelevant(p, polygon[k]);
    RingReplaced(p, polygon, k, Reversed(polygon[k]));
    if Closed(polygon[k]) && start < |polygon[k]| {
      StartIrrelevant(p, polygon[k], start);
      RingReplaced(p, polygon, k, StartedAt(polygon[k], start));
    }
  }

  // ----- holes -----

  predicate OddRing(p: Coord, ring: Ring) {
    Crossings(p, ring) % 2 == 1
  }

  /** How many rings of a polygon a point is inside of, by itself. */
  function OddRings(p: Coord, polygon: Polygon): nat {
    if polygon == [] then 0 else (if OddRing(p, polygon[0]) then 1 else 0) + OddRings(p, polygon[1..])
  }

  lemma {:induction false} OddRingsParity(p: Coord, polygon: Polygon)
    ensures TotalCrossings(p, polygon) % 2 == OddRings(p, polygon) % 2
    decreases |polygon|
  {
    if polygon != [] {
      OddRingsParity(p, polygon[1..]);
      ParityAdds(Crossings(p, polygon[0]), TotalCrossings(p, polygon[1..]), OddRings(p, polygon[1..]));
    }
  }

  lemma {:induction false} ParityAdds(n: nat, m: nat, k: nat)
    requires m % 2 == k % 2
    ensures (n + m) % 2 == ((if n % 2 == 1 then 1 else 0) + k) % 2
  {}

  /** Off every edge, a point is covered exactly when it is inside an odd number of the
      rings of some part. */
  lemma {:induction false} EvenOddRule(p: Coord, polygons: seq<Polygon>)
    requires forall k | 0 <= k < |polygons| :: !TouchesAny(p, polygons[k])
    ensures Covers(p, polygons) <==> exists k | 0 <= k < |polygons| :: OddRings(p, polygons[k]) % 2 == 1
  {
    forall k | 0 <= k < |polygons|
      ensures InOrOn(p, polygons[k]) <==> OddRings(p, polygons[k]) % 2 == 1
    {
      OddRingsParity(p, polygons[k]);
    }
  }

  /** Inside the exterior and one hole, and inside no other ring. */
  predicate InHole(p: Coord, polygon: Polygon) {
    exists h | 0 < h < |polygon| :: InHoleAt(p, polygon, h)
  }

  predicate InHoleAt(p: Coord, polygon: Polygon, h: nat) {
    forall k | 0 <= k < |polygon| :: OddRing(p, polygon[k]) <==> k == 0 || k == h
  }

  predicate InNoRing(p: Coord, polygon: Polygon) {
    forall k | 0 <= k < |polygon| :: !OddRing(p, polygon[k])
  }

  lemma {:induction false} NoOddRing(p: Coord, polygon: Polygon)
    requires InNoRing(p, polygon)
    ensures OddRings(p, polygon) == 0
    decreases |polygon|
  {
    if polygon != [] {
      NoOddRing(p, polygon[1..]);
    }
  }

  lemma {:induction false} OneOddRing(p: Coord, polygon: Polygon, h: nat)
    requires h < |polygon| && forall k | 0 <= k < |polygon| :: OddRing(p, polygon[k]) <==> k == h
    ensures OddRings(p, polygon) == 1
    decreases |polygon|
  {
    if h == 0 {
      NoOddRing(p, polygon[1..]);
    } else {
      OneOddRing(p, polygon[1..], h - 1);
    }
  }

  /** A point in a hole is outside, however many holes and parts there are. */
  lemma {:induction false} HolesAreOutside(p: Coord, polygons: seq<Polygon>)
    requires forall k | 0 <= k < |polygons| :: !TouchesAny(p, polygons[k])
    requires forall k | 0 <= k < |polygons| :: InHole(p, polygons[k]) || InNoRing(p, polygons[k])
    ensures !Covers(p, polygons)
  {
    forall k | 0 <= k < |polygons|
      ensures OddRings(p, polygons[k]) % 2 != 1
    {
      HoleIsEven(p, polygons[k]);
    }
    EvenOddRule(p, polygons);
  }

  lemma {:induction false} HoleIsEven(p: Coord, polygon: Polygon)
    requires InHole(p, polygon) || InNoRing(p, polygon)
    ensures OddRings(p, polygon) in {0, 2}
  {
    if InNoRing(p, polygon) {
      NoOddRing(p, polygon);
    } else {
      var h :| 0 < h < |polygon| && InHoleAt(p, polygon, h);
      OneOddRing(p, polygon[1..], h - 1);
      assert OddRing(p, polygon[0]);
    }
  }

  // ----- far points -----

  function StraddleCount(y: real, ring: Ring): nat {
    if |ring| < 2 then 0
    else (if Straddles(y, ring[0], ring[1]) then 1 else 0) + StraddleCount(y, ring[1..])
  }

  /** A path straddles a height an odd number of times exactly when its ends lie on
      different sides; a closed ring therefore does so an even number of times. */
  lemma {:induction false} StraddleParity(y: real, ring: Ring)
    requires ring != []
    ensures StraddleCount(y, ring) % 2 == 1 <==> Straddles(y, ring[0], ring[|ring| - 1])
    decreases |ring|
  {
    if |ring| >= 2 {
      StraddleParity(y, ring[1..]);
    }
  }

  lemma {:induction false} CrossingBetween(y: real, a: Coord, b: Coord)
    requires Straddles(y, a, b)
    ensures MinReal(a.0, b.0) <= CrossingX(y, a, b) <= MaxReal(a.0, b.0)
  {
    if a.1 > y {
      CrossingXSymmetric(y, a, b);
      CrossingAbove(y, b, a);
    } else {
      CrossingAbove(y, a, b);
    }
  }

  /** The point at a share of the way. */
  function Plus(base: real, t: real, w: real): real {
    base + t * w
  }

  lemma {:induction false} PlusBetween(base: real, t: real, w: real)
    requires 0.0 <= t <= 1.0
    ensures MinReal(base, base + w) <= Plus(base, t, w) <= MaxReal(base, base + w)
  {
    if w >= 0.0 {
      ScaleBetween(t, w);
    } else {
      ScaleBetween(t, -w);
      assert t * -w == -(t * w);
    }
  }

  lemma {:induction false} CrossingAbove(y: real, a: Coord, b: Coord)
    requires a.1 <= y < b.1
    ensures MinReal(a.0, b.0) <= CrossingX(y, a, b) <= MaxReal(a.0, b.0)
  {
    var d := b.1 - a.1;
    var t := (y - a.1) / d;
    assert t * d == y - a.1;
    Ratio(t, d);
    assert CrossingX(y, a, b) == Plus(a.0, t, b.0 - a.0);
    PlusBetween(a.0, t, b.0 - a.0);
  }

  lemma {:induction false} Ratio(t: real, d: real)
    requires d > 0.0 && 0.0 <= t * d <= d
    ensures 0.0 <= t <= 1.0
  {
    assert t < 0.0 ==> t * d < 0.0;
    assert t > 1.0 ==> (t - 1.0) * d > 0.0;
    assert (t - 1.0) * d == t * d - d;
  }

  lemma {:induction false} ScaleBetween(t: real, w: real)
    requires 0.0 <= t <= 1.0 && w >= 0.0
    ensures 0.0 <= t * w <= w
  {
    assert (1.0 - t) * w >= 0.0;
    assert (1.0 - t) * w == w - t * w;
  }

  datatype Side = West | East | South | North

  /** `p` lies off the ring's bounding box, on the given side, by more than the tolerance. */
  predicate Beyond(p: Coord, ring: Ring, side: Side) {
    forall k | 0 <= k < |ring| :: BeyondVertex(p, ring[k], side)
  }

  predicate BeyondVertex(p: Coord, v: Coord, side: Side) {
    match side
    case West => p.0 < v.0 - TOLERANCE
    case East => p.0 > v.0 + TOLERANCE
    case South => p.1 < v.1 - TOLERANCE
    case North => p.1 > v.1 + TOLERANCE
  }

  /** From the west every straddling edge counts, from elsewhere none does. */
  lemma {:induction false} BeyondCounts(p: Coord, ring: Ring, side: Side)
    requires Beyond(p, ring, side)
    ensures !Touches(p, ring)
    ensures Crossings(p, ring) == if side.West? then StraddleCount(p.1, ring) else 0
    decreases |ring|
  {
    if |ring| >= 2 {
      var a, b := ring[0], ring[1];
      assert forall k | 0 <= k < |ring| - 1 :: ring[1..][k] == ring[k + 1];
      BeyondCounts(p, ring[1..], side);
      if Straddles(p.1, a, b) {
        CrossingBetween(p.1, a, b);
      }
    }
  }

  predicate OffEveryRing(p: Coord, polygon: Polygon) {
    forall k | 0 <= k < |polygon| :: Closed(polygon[k]) && exists side :: Beyond(p, polygon[k], side)
  }

  lemma {:induction false} FarFromRing(p: Coord, ring: Ring, side: Side)
    requires Closed(ring) && Beyond(p, ring, side)
    ensures !Touches(p, ring) && Crossings(p, ring) % 2 == 0
  {
    BeyondCounts(p, ring, side);
    StraddleParity(p.1, ring);
  }

  lemma {:induction false} FarFromPolygon(p: Coord, polygon: Polygon)
    requires OffEveryRing(p, polygon)
    ensures !InOrOn(p, polygon)
  {
    forall k | 0 <= k < |polygon|
      ensures !Touches(p, polygon[k]) && Crossings(p, polygon[k]) % 2 == 0
    {
      var side :| Beyond(p, polygon[k], side);
      FarFromRing(p, polygon[k], side);
    }
    EvenTotal(p, polygon);
  }

  lemma {:induction false} EvenTotal(p: Coord, polygon: Polygon)
    requires forall k | 0 <= k < |polygon| :: Crossings(p, polygon[k]) % 2 == 0
    ensures TotalCrossings(p, polygon) % 2 == 0
    decreases |polygon|
  {
    if polygon != [] {
      EvenTotal(p, polygon[1..]);
      assert Crossings(p, polygon[0]) % 2 == 0;
    }
  }

  /** For closed rings, a point outside every ring's bounding box by more than the
      tolerance is outside. */
  lemma {:induction false} FarPointsAreOutside(p: Coord, polygons: seq<Polygon>)
    requires forall k | 0 <= k < |polygons| :: OffEveryRing(p, polygons[k])
    ensures !Covers(p, polygons)
  {
    forall k | 0 <= k < |polygons|
      ensures !InOrOn(p, polygons[k])
    {
      FarFromPolygon(p, polygons[k]);
    }
  }

  /** A longitude west of every vertex. */
  function WestOf(ring: Ring): (x: real)
    ensures forall k | 0 <= k < |ring| :: x < ring[k].0 - TOLERANCE
  {
    if ring == [] then 0.0
    else
      var rest := WestOf(ring[1..]);
      assert forall k | 0 < k < |ring| :: ring[k] == ring[1..][k - 1];
      if rest < ring[0].0 - 1.0 then rest else ring[0].0 - 1.0
  }

  lemma {:induction false} RingAlone(p: Coord, ring: Ring, side: Side)
    requires ring != [] && Beyond(p, ring, side)
    ensures InOrOn(p, [ring]) <==> side.West? && Straddles(p.1, ring[0], ring[|ring| - 1])
  {
    BeyondCounts(p, ring, side);
    StraddleParity(p.1, ring);
    assert [ring][1..] == [] && [ring][0] == ring;
    assert TotalCrossings(p, [ring]) == Crossings(p, ring) + TotalCrossings(p, [ring][1..]);
  }

  ghost predicate ClaimsNothingFar(ring: Ring) {
    forall p, side | Beyond(p, ring, side) :: !InOrOn(p, [ring])
  }

  /** A ring keeps to its own bounding box exactly when it ends at the height it starts at;
      one that does not claims points west of all its vertices. */
  lemma {:induction false} FarClaimsIff(ring: Ring)
    requires ring != []
    ensures ClaimsNothingFar(ring) <==> ring[0].1 == ring[|ring| - 1].1
  {
    var a, b := ring[0], ring[|ring| - 1];
    if a.1 == b.1 {
      forall p, side | Beyond(p, ring, side)
        ensures !InOrOn(p, [ring])
      {
        RingAlone(p, ring, side);
      }
    } else {
      var p: Coord := (WestOf(ring), MinReal(a.1, b.1));
      assert Beyond(p, ring, West);
      RingAlone(p, ring, West);
    }
  }

  // ----- the other ray -----

  /** An edge crossed by the ray to the west instead of the east. */
  predicate CrossesWest(p: Coord, a: Coord, b: Coord) {
    Straddles(p.1, a, b) && CrossingX(p.1, a, b) < p.0
  }

  function CrossingsWest(p: Coord, ring: Ring): nat {
    if |ring| < 2 then 0
    else (if CrossesWest(p, ring[0], ring[1]) then 1 else 0) + CrossingsWest(p, ring[1..])
  }

  lemma {:induction false} ProductsMeet(t: real, w: real, d: real, y: real)
    requires t * d == y
    ensures t * w * d - y * w == 0.0
  {
    assert t * w * d == t * d * w;
  }

  /** A point that an edge crosses its height at is on that edge. */
  lemma {:induction false} AtCrossing(p: Coord, a: Coord, b: Coord)
    requires Straddles(p.1, a, b) && p.0 == CrossingX(p.1, a, b)
    ensures OnSegment(p, a, b)
  {
    var d, w, y := b.1 - a.1, b.0 - a.0, p.1 - a.1;
    var t := y / d;
    assert t * d == y;
    ProductsMeet(t, w, d, y);
    CrossingBetween(p.1, a, b);
  }

  lemma {:induction false} BothRays(p: Coord, ring: Ring)
    requires !Touches(p, ring)
    ensures Crossings(p, ring) + CrossingsWest(p, ring) == StraddleCount(p.1, ring)
    decreases |ring|
  {
    if |ring| >= 2 {
      BothRays(p, ring[1..]);
      OneRay(p, ring[0], ring[1]);
    }
  }

  lemma {:induction false} OneRay(p: Coord, a: Coord, b: Coord)
    requires !OnSegment(p, a, b)
    ensures Straddles(p.1, a, b) <==> Crosses(p, a, b) || CrossesWest(p, a, b)
    ensures !(Crosses(p, a, b) && CrossesWest(p, a, b))
  {
    if Straddles(p.1, a, b) && p.0 == CrossingX(p.1, a, b) {
      AtCrossing(p, a, b);
    }
  }

  /** Off every edge of a closed ring the rays to the west and to the east cross it with
      the same parity. */
  lemma {:induction false} RayDirectionIrrelevant(p: Coord, ring: Ring)
    requires Closed(ring) && !Touches(p, ring)
    ensures Crossings(p, ring) % 2 == CrossingsWest(p, ring) % 2
  {
    BothRays(p, ring);
    StraddleParity(p.1, ring);
  }

  // ----- usable rings -----

  datatype Geometry = PolygonGeometry(rings: Polygon) | MultiPolygonGeometry(parts: seq<Polygon>) | OtherGeometry

  function UsableRings(rings: Polygon): Polygon {
    if rings == [] then []
    else UsableRings(rings[..|rings| - 1]) + (if |rings[|rings| - 1]| >= 4 then [rings[|rings| - 1]] else [])
  }

  function UsableParts(parts: seq<Polygon>): seq<Polygon> {
    if parts == [] then []
    else
      var rings := UsableRings(parts[|parts| - 1]);
      UsableParts(parts[..|parts| - 1]) + (if rings != [] then [rings] else [])
  }

  /** The polygons to test, None where the source raises. */
  method PolygonRings(geometry: Geometry) returns (r: Option<seq<Polygon>>)
    ensures var parts := match geometry
                         case PolygonGeometry(rings) => [rings]
                         case MultiPolygonGeometry(parts) => parts
                         case OtherGeometry => [];
            r == if UsableParts(parts) == [] then None else Some(UsableParts(parts))
  {
    var polygons: seq<Polygon>;
    match geometry {
      case PolygonGeometry(rings) => polygons := [rings];
      case MultiPolygonGeometry(parts) => polygons := parts;
      case OtherGeometry => return None;
    }
    var out: seq<Polygon> := [];
    for k := 0 to |polygons|
      invariant out == UsableParts(polygons[..k])
    {
      assert polygons[..k + 1][..k] == polygons[..k];
      var rings := UsableRings(polygons[k]);
      if rings != [] {
        out := out + [rings];
      }
    }
    assert polygons[..|polygons|] == polygons;
    return if out == [] then None else Some(out);
  }

  /** A polygon is refused exactly when no ring of any part has four points. */
  lemma {:induction false} NoUsableRing(parts: seq<Polygon>)
    ensures UsableParts(parts) == [] <==>
      forall i, j | 0 <= i < |parts| && 0 <= j < |parts[i]| :: |parts[i][j]| < 4
    decreases |parts|
  {
    if parts != [] {
      var last := |parts| - 1;
      NoUsableRing(parts[..last]);
      NoRingOfFour(parts[last]);
      if forall i, j | 0 <= i < last && 0 <= j < |parts[..last][i]| :: |parts[..last][i][j]| < 4 {
        assert forall i, j | 0 <= i < last && 0 <= j < |parts[i]| :: |parts[..last][i][j]| < 4;
      }
    }
  }

  lemma {:induction false} NoRingOfFour(rings: Polygon)
    ensures UsableRings(rings) == [] <==> forall j | 0 <= j < |rings| :: |rings[j]| < 4
    decreases |rings|
  {
    if rings != [] {
      NoRingOfFour(rings[..|rings| - 1]);
    }
  }

  /** Every ring of four points or more is kept as often as it occurs, and no other. */
  lemma {:induction false} RingsKept(rings: Polygon, ring: Ring)
    ensures multiset(UsableRings(rings))[ring] == if |ring| >= 4 then multiset(rings)[ring] else 0
    decreases |rings|
  {
    if rings != [] {
      var last := |rings| - 1;
      RingsKept(rings[..last], ring);
      assert rings == rings[..last] + [rings[last]];
    }
  }

  /** A point is covered by what is kept exactly when it is in or on the kept rings of some
      part. */
  lemma {:induction false} PartsKept(p: Coord, parts: seq<Polygon>)
    ensures Covers(p, UsableParts(parts)) <==> exists k | 0 <= k < |parts| :: InOrOn(p, UsableRings(parts[k]))
    decreases |parts|
  {
    if parts != [] {
      var last := |parts| - 1;
      PartsKept(p, parts[..last]);
      LastPart(p, parts);
      assert forall k | 0 <= k < last :: parts[..last][k] == parts[k];
    }
  }

  lemma {:induction false} LastPart(p: Coord, parts: seq<Polygon>)
    requires parts != []
    ensures Covers(p, UsableParts(parts))
      <==> Covers(p, UsableParts(parts[..|parts| - 1])) || InOrOn(p, UsableRings(parts[|parts| - 1]))
  {
    var earlier, rings := UsableParts(parts[..|parts| - 1]), UsableRings(parts[|parts| - 1]);
    OneMorePart(p, earlier, rings);
    assert UsableParts(parts) == if rings == [] then earlier else earlier + [rings];
  }

  lemma {:induction false} OneMorePart(p: Coord, earlier: seq<Polygon>, rings: Polygon)
    ensures Covers(p, earlier + [rings]) <==> Covers(p, earlier) || InOrOn(p, rings)
    ensures rings == [] ==> !InOrOn(p, rings)
  {
    var all := earlier + [rings];
    assert all[|earlier|] == rings;
    assert forall k | 0 <= k < |earlier| :: all[k] == earlier[k];
  }
}
