/** What containment means in the plane: the boundary is the edges, to within a hair, the
    interior is an odd number of triangles, and a line that has a point on one side and a
    ring on the other keeps the point outside. */
module PolygonAreas {
  import opened Floats
  import opened Polygons

  /** Twice the signed area of the triangle of a point and two vertices. */
  function Turn(p: Coord, a: Coord, b: Coord): real {
    (a.0 - p.0) * (b.1 - p.1) - (a.1 - p.1) * (b.0 - p.0)
  }

  lemma {:induction false} TurnIsCross(p: Coord, a: Coord, b: Coord)
    ensures Cross(p, a, b) == -Turn(p, a, b)
  {
    var x, y, u, v := a.0 - p.0, a.1 - p.1, b.0 - p.0, b.1 - p.1;
    Expand(x, y, u, v);
    assert p.0 - a.0 == -x && b.1 - a.1 == v - y && p.1 - a.1 == -y && b.0 - a.0 == u - x;
  }

  lemma {:induction false} Expand(x: real, y: real, u: real, v: real)
    ensures -x * (v - y) - -y * (u - x) == -(x * v - y * u)
  {
    assert -x * (v - y) == -(x * v) + x * y;
    assert -y * (u - x) == -(y * u) + y * x;
  }

  // ----- the boundary -----

  predicate Between(x: real, a: real, b: real, slack: real) {
    a - slack <= x <= b + slack || b - slack <= x <= a + slack
  }

  /** A ring is touched exactly at an edge that spans at most 10^-12 with the point and
      whose box, 10^-12 wider, holds it. */
  lemma {:induction false} TouchesIff(p: Coord, ring: Ring)
    ensures Touches(p, ring) <==> exists k | 0 <= k < |ring| - 1 ::
      && -0.000000000001 <= Turn(p, ring[k], ring[k + 1]) <= 0.000000000001
      && Between(p.0, ring[k].0, ring[k + 1].0, 0.000000000001)
      && Between(p.1, ring[k].1, ring[k + 1].1, 0.000000000001)
    decreases |ring|
  {
    if |ring| >= 2 {
      TurnIsCross(p, ring[0], ring[1]);
      TouchesIff(p, ring[1..]);
      assert forall k | 0 <= k < |ring| - 1 :: ring[1..][k] == ring[k + 1];
    }
  }

  /** The point at a given share of an edge. */
  function Along(a: Coord, b: Coord, t: real): Coord {
    (a.0 + t * (b.0 - a.0), a.1 + t * (b.1 - a.1))
  }

  lemma {:induction false} ShareIsBetween(a: real, w: real, t: real)
    requires 0.0 <= t <= 1.0
    ensures Between(a + t * w, a, a + w, 0.0)
  {
    if w >= 0.0 {
      ScaleBetween(t, w);
    } else {
      ScaleBetween(t, -w);
      assert t * -w == -(t * w);
    }
  }

  lemma {:induction false} AlongIsBetween(a: real, b: real, t: real)
    requires 0.0 <= t <= 1.0
    ensures Between(a + t * (b - a), a, b, 0.0)
  {
    ShareIsBetween(a, b - a, t);
  }

  /** Every point of an edge is on it. */
  lemma {:induction false} EdgePointsTouch(a: Coord, b: Coord, t: real)
    requires 0.0 <= t <= 1.0
    ensures OnSegment(Along(a, b, t), a, b)
  {
    AlongIsBetween(a.0, b.0, t);
    AlongIsBetween(a.1, b.1, t);
    var u, v := b.0 - a.0, b.1 - a.1;
    assert t * u * v - t * v * u == 0.0;
  }

  // ----- how far a touch reaches -----

  predicate Near(p: Coord, q: Coord, distance: real) {
    -distance <= p.0 - q.0 <= distance && -distance <= p.1 - q.1 <= distance
  }

  /** A millionth, and the tolerance. */
  const REACH := 0.000001000001

  ghost predicate NearEdge(p: Coord, a: Coord, b: Coord) {
    exists t :: 0.0 <= t <= 1.0 && Near(p, Along(a, b, t), REACH)
  }

  function Clamped(x: real, a: real, b: real): (r: real)
    ensures Between(r, a, b, 0.0)
    ensures forall slack :: Between(x, a, b, slack) && slack >= 0.0 ==> -slack <= x - r <= slack
  {
    if x < MinReal(a, b) then MinReal(a, b) else if x > MaxReal(a, b) then MaxReal(a, b) else x
  }

  /** A small area over a long side is a small height. */
  lemma {:induction false} SmallHeight(e: real, w: real)
    requires w >= 0.000001 && -TOLERANCE - TOLERANCE * w <= e * w <= TOLERANCE + TOLERANCE * w
    ensures -REACH <= e <= REACH
  {
    assert e > REACH ==> (e - REACH) * w > 0.0;
    assert e < -REACH ==> (e + REACH) * w < 0.0;
    assert (e - REACH) * w == e * w - REACH * w && (e + REACH) * w == e * w + REACH * w;
  }

  lemma {:induction false} SmallHeightEither(e: real, w: real)
    requires AbsReal(w) >= 0.000001
    requires -TOLERANCE - TOLERANCE * AbsReal(w) <= e * w <= TOLERANCE + TOLERANCE * AbsReal(w)
    ensures -REACH <= e <= REACH
  {
    if w > 0.0 {
      SmallHeight(e, w);
    } else {
      assert e * -w == -(e * w);
      SmallHeight(e, -w);
    }
  }

  lemma {:induction false} UnitShare(z: real, w: real, t: real)
    requires w != 0.0 && t * w == z && Between(z, 0.0, w, 0.0)
    ensures 0.0 <= t <= 1.0
  {
    assert (t - 1.0) * w == z - w;
    if w > 0.0 {
      assert 0.0 <= z <= w;
      assert t < 0.0 ==> t * w < 0.0;
      assert t > 1.0 ==> (t - 1.0) * w > 0.0;
    } else {
      assert w <= z <= 0.0;
      assert t < 0.0 ==> t * w > 0.0;
      assert t > 1.0 ==> (t - 1.0) * w < 0.0;
    }
  }

  lemma {:induction false} DividedBack(z: real, w: real)
    requires w != 0.0
    ensures z / w * w == z
  {
  }

  function Rest(x: real, t: real, w: real): real {
    x - t * w
  }

  lemma {:induction false} ShareOf(z: real, w: real) returns (t: real)
    requires w != 0.0 && Between(z, 0.0, w, 0.0)
    ensures 0.0 <= t <= 1.0 && t * w == z && Rest(z, t, w) == 0.0
  {
    t := z / w;
    DividedBack(z, w);
    UnitShare(z, w, t);
  }

  lemma {:induction false} NotNegative(x: real, y: real)
    requires x >= 0.0 && y >= 0.0
    ensures x * y >= 0.0
  {
  }

  lemma {:induction false} ProductWithin(n: real, u: real, m: real)
    requires -m <= u <= m
    ensures -(AbsReal(n) * m) <= n * u <= AbsReal(n) * m
  {
    var k := AbsReal(n);
    NotNegative(k, m - u);
    NotNegative(k, m + u);
    assert k * (m - u) == k * m - k * u && k * (m + u) == k * m + k * u;
    assert k * u == n * u || k * u == -(n * u);
  }

  /** Twice the area that an edge to (w, d) spans with (x, y), seen from its start. */
  function Area(x: real, y: real, w: real, d: real): real {
    x * d - y * w
  }

  lemma {:induction false} CrossIsArea(p: Coord, a: Coord, b: Coord)
    ensures Cross(p, a, b) == Area(p.0 - a.0, p.1 - a.1, b.0 - a.0, b.1 - a.1)
  {
  }

  predicate Within(x: real, slack: real) {
    -slack <= x <= slack
  }

  lemma {:induction false} NearAlong(p: Coord, a: Coord, b: Coord, t: real)
    requires Within(Rest(p.0 - a.0, t, b.0 - a.0), REACH) && Within(Rest(p.1 - a.1, t, b.1 - a.1), REACH)
    ensures Near(p, Along(a, b, t), REACH)
  {
    assert Rest(p.0 - a.0, t, b.0 - a.0) == p.0 - Along(a, b, t).0;
    assert Rest(p.1 - a.1, t, b.1 - a.1) == p.1 - Along(a, b, t).1;
  }

  /** The share of the way at which a coordinate is reached, to within the slack. */
  lemma {:induction false} ShareReaching(x: real, a: real, b: real) returns (t: real)
    requires a != b && Between(x, a, b, TOLERANCE)
    ensures 0.0 <= t <= 1.0 && Within(Rest(x - a, t, b - a), TOLERANCE)
  {
    var r := Clamped(x, a, b);
    t := ShareOf(r - a, b - a);
    assert Rest(x - a, t, b - a) == x - r + Rest(r - a, t, b - a);
  }

  lemma {:induction false} TouchIs(p: Coord, a: Coord, b: Coord)
    requires OnSegment(p, a, b)
    ensures Within(Area(p.0 - a.0, p.1 - a.1, b.0 - a.0, b.1 - a.1), TOLERANCE)
    ensures Between(p.0, a.0, b.0, TOLERANCE)
  {
    CrossIsArea(p, a, b);
  }

  /** An edge that is wider than high passes the point within a touch's reach. */
  lemma {:induction false} TouchesWide(p: Coord, a: Coord, b: Coord)
    requires OnSegment(p, a, b) && AbsReal(b.0 - a.0) >= 0.000001 && AbsReal(b.1 - a.1) <= AbsReal(b.0 - a.0)
    ensures NearEdge(p, a, b)
  {
    TouchIs(p, a, b);
    var t := ShareReaching(p.0, a.0, b.0);
    PassesNear(p.0 - a.0, p.1 - a.1, b.0 - a.0, b.1 - a.1, t);
    NearAlong(p, a, b, t);
  }

  lemma {:induction false} PassesNear(x: real, y: real, w: real, d: real, t: real)
    requires Within(Area(x, y, w, d), TOLERANCE) && Within(Rest(x, t, w), TOLERANCE)
    requires AbsReal(w) >= 0.000001 && AbsReal(d) <= AbsReal(w)
    ensures Within(Rest(y, t, d), REACH)
  {
    HeightOf(x, y, d, w, t);
    HeightWithin(Rest(y, t, d), w, Area(x, y, w, d), d, Rest(x, t, w));
  }

  lemma {:induction false} HeightWithin(e: real, w: real, c: real, d: real, g: real)
    requires e * w == -c + d * g && -TOLERANCE <= c <= TOLERANCE && -TOLERANCE <= g <= TOLERANCE
    requires AbsReal(w) >= 0.000001 && AbsReal(d) <= AbsReal(w)
    ensures -REACH <= e <= REACH
  {
    ProductWithin(d, g, TOLERANCE);
    NotNegative(AbsReal(w) - AbsReal(d), TOLERANCE);
    assert AbsReal(d) * TOLERANCE <= TOLERANCE * AbsReal(w);
    SmallHeightEither(e, w);
  }

  lemma {:induction false} HeightOf(x: real, y: real, d: real, w: real, t: real)
    ensures Rest(y, t, d) * w == -Area(x, y, w, d) + d * Rest(x, t, w)
  {
    assert (y - t * d) * w == y * w - t * d * w;
    assert d * (x - t * w) == x * d - t * d * w;
  }

  function Turned(p: Coord): Coord {
    (p.1, p.0)
  }

  lemma {:induction false} AreaTurned(x: real, y: real, w: real, d: real)
    ensures Area(y, x, d, w) == -Area(x, y, w, d)
  {
  }

  lemma {:induction false} TurnedEdge(p: Coord, a: Coord, b: Coord)
    requires OnSegment(p, a, b)
    ensures OnSegment(Turned(p), Turned(a), Turned(b))
  {
    CrossIsArea(p, a, b);
    CrossIsArea(Turned(p), Turned(a), Turned(b));
    AreaTurned(p.0 - a.0, p.1 - a.1, b.0 - a.0, b.1 - a.1);
  }

  lemma {:induction false} TurnedNear(p: Coord, a: Coord, b: Coord)
    requires NearEdge(Turned(p), Turned(a), Turned(b))
    ensures NearEdge(p, a, b)
  {
    var t :| 0.0 <= t <= 1.0 && Near(Turned(p), Along(Turned(a), Turned(b), t), REACH);
    assert Near(p, Along(a, b, t), REACH);
  }

  /** A touched edge is at most about a millionth away: the tolerance is an area, so short
      edges reach further than 10^-12. */
  lemma {:induction false} TouchedIsNear(p: Coord, a: Coord, b: Coord)
    requires OnSegment(p, a, b)
    ensures NearEdge(p, a, b)
  {
    if AbsReal(b.0 - a.0) < 0.000001 && AbsReal(b.1 - a.1) < 0.000001 {
      assert Along(a, b, 0.0) == a;
      assert Near(p, Along(a, b, 0.0), REACH);
    } else if AbsReal(b.1 - a.1) <= AbsReal(b.0 - a.0) {
      TouchesWide(p, a, b);
    } else {
      TurnedEdge(p, a, b);
      TouchesWide(Turned(p), Turned(a), Turned(b));
      TurnedNear(p, a, b);
    }
  }

  /** A point a millionth below the upper end of a slope a millionth wide counts as on it. */
  lemma {:induction false} ShortEdgesReachFurther()
    ensures OnSegment((0.000001, 0.0), (0.0, 0.0), (0.000001, 0.000001))
  {
  }

  // ----- outside -----

  function Dot(n: Coord, p: Coord): real {
    n.0 * p.0 + n.1 * p.1
  }

  /** A line across the direction `n`, with the point beyond it and every vertex before it
      by more than a touch reaches. */
  predicate Separates(n: Coord, p: Coord, ring: Ring) {
    && AbsReal(n.0) + AbsReal(n.1) <= 1.0
    && forall k | 0 <= k < |ring| :: Before(n, p, ring[k])
  }

  predicate Before(n: Coord, p: Coord, v: Coord) {
    Dot(n, v) + REACH < Dot(n, p)
  }

  lemma {:induction false} EdgeIsBefore(n: Coord, p: Coord, a: Coord, b: Coord, t: real)
    requires 0.0 <= t <= 1.0 && Before(n, p, a) && Before(n, p, b)
    ensures Before(n, p, Along(a, b, t))
  {
    var g, h := Dot(n, p) - Dot(n, a), Dot(n, p) - Dot(n, b);
    assert n.0 * (t * (b.0 - a.0)) == t * (n.0 * b.0) - t * (n.0 * a.0);
    assert n.1 * (t * (b.1 - a.1)) == t * (n.1 * b.1) - t * (n.1 * a.1);
    assert Dot(n, Along(a, b, t)) == Dot(n, a) + t * Dot(n, b) - t * Dot(n, a);
    assert Dot(n, p) - Dot(n, Along(a, b, t)) == g + t * (h - g);
    Mixed(g, h, t);
  }

  lemma {:induction false} Mixed(g: real, h: real, t: real)
    requires 0.0 <= t <= 1.0 && g > REACH && h > REACH
    ensures g + t * (h - g) > REACH
  {
    AlongIsBetween(g, h, t);
  }

  lemma {:induction false} WithinReach(m: real, n: real, u: real, v: real)
    requires AbsReal(m) + AbsReal(n) <= 1.0 && -REACH <= u <= REACH && -REACH <= v <= REACH
    ensures m * u + n * v <= REACH
  {
    ProductWithin(m, u, REACH);
    ProductWithin(n, v, REACH);
    NotNegative(1.0 - AbsReal(m) - AbsReal(n), REACH);
    assert (1.0 - AbsReal(m) - AbsReal(n)) * REACH == REACH - AbsReal(m) * REACH - AbsReal(n) * REACH;
  }

  lemma {:induction false} NearIsNotBefore(n: Coord, p: Coord, q: Coord)
    requires Near(p, q, REACH) && AbsReal(n.0) + AbsReal(n.1) <= 1.0
    ensures !Before(n, p, q)
  {
    WithinReach(n.0, n.1, p.0 - q.0, p.1 - q.1);
    assert n.0 * (p.0 - q.0) + n.1 * (p.1 - q.1) == Dot(n, p) - Dot(n, q);
  }

  lemma {:induction false} BeforeIsOff(n: Coord, p: Coord, a: Coord, b: Coord)
    requires AbsReal(n.0) + AbsReal(n.1) <= 1.0 && Before(n, p, a) && Before(n, p, b)
    ensures !OnSegment(p, a, b)
  {
    if OnSegment(p, a, b) {
      TouchedIsNear(p, a, b);
      var t :| 0.0 <= t <= 1.0 && Near(p, Along(a, b, t), REACH);
      EdgeIsBefore(n, p, a, b, t);
      NearIsNotBefore(n, p, Along(a, b, t));
    }
  }

  lemma {:induction false} BeforeCrosses(n: Coord, p: Coord, a: Coord, b: Coord)
    requires Before(n, p, a) && Before(n, p, b)
    ensures Crosses(p, a, b) <==> Straddles(p.1, a, b) && n.0 < 0.0
  {
    if Straddles(p.1, a, b) {
      var t := ShareOf(p.1 - a.1, b.1 - a.1);
      CrossingAlong(p.1, a, b, t);
      EdgeIsBefore(n, p, a, b, t);
      assert Dot(n, Along(a, b, t)) == n.0 * CrossingX(p.1, a, b) + n.1 * p.1;
      SameSide(n.0, CrossingX(p.1, a, b), p.0);
    }
  }

  lemma {:induction false} Quotient(z: real, d: real, t: real)
    requires d != 0.0 && t * d == z
    ensures z / d == t
  {
    assert (z / d - t) * d == 0.0;
  }

  lemma {:induction false} CrossingAlong(y: real, a: Coord, b: Coord, t: real)
    requires a.1 != b.1 && t * (b.1 - a.1) == y - a.1
    ensures CrossingX(y, a, b) == Along(a, b, t).0 && y == Along(a, b, t).1
  {
    var u := (y - a.1) / (b.1 - a.1);
    Quotient(y - a.1, b.1 - a.1, t);
    assert u == t;
    assert CrossingX(y, a, b) == Plus(a.0, u, b.0 - a.0) == Plus(a.0, t, b.0 - a.0) == Along(a, b, t).0;
  }

  lemma {:induction false} SameSide(n: real, x: real, u: real)
    requires n * x < n * u
    ensures u < x <==> n < 0.0
  {
    assert n * (u - x) == n * u - n * x;
    assert n >= 0.0 && u < x ==> n * (x - u) >= 0.0;
    assert n < 0.0 && u > x ==> -n * (u - x) > 0.0;
  }

  lemma {:induction false} SeparatedCounts(n: Coord, p: Coord, ring: Ring)
    requires Separates(n, p, ring)
    ensures !Touches(p, ring)
    ensures Crossings(p, ring) == if n.0 < 0.0 then StraddleCount(p.1, ring) else 0
    decreases |ring|
  {
    if |ring| >= 2 {
      assert forall k | 0 <= k < |ring| - 1 :: ring[1..][k] == ring[k + 1];
      SeparatedCounts(n, p, ring[1..]);
      BeforeIsOff(n, p, ring[0], ring[1]);
      BeforeCrosses(n, p, ring[0], ring[1]);
    }
  }

  ghost predicate SeparatedFrom(p: Coord, polygon: Polygon) {
    forall k | 0 <= k < |polygon| :: Closed(polygon[k]) && exists n :: Separates(n, p, polygon[k])
  }

  lemma {:induction false} SeparatedIsEven(n: Coord, p: Coord, ring: Ring)
    requires Closed(ring) && Separates(n, p, ring)
    ensures !Touches(p, ring) && Crossings(p, ring) % 2 == 0
  {
    SeparatedCounts(n, p, ring);
    StraddleParity(p.1, ring);
  }

  /** A point that some line of any slope separates from all vertices of a closed ring, for
      every ring, is not covered. */
  lemma {:induction false} SeparatedIsOutside(p: Coord, polygons: seq<Polygon>)
    requires forall k | 0 <= k < |polygons| :: SeparatedFrom(p, polygons[k])
    ensures !Covers(p, polygons)
  {
    forall k | 0 <= k < |polygons|
      ensures !InOrOn(p, polygons[k])
    {
      var polygon := polygons[k];
      assert SeparatedFrom(p, polygon);
      forall j | 0 <= j < |polygon|
        ensures !Touches(p, polygon[j]) && Crossings(p, polygon[j]) % 2 == 0
      {
        assert Closed(polygon[j]) && exists n :: Separates(n, p, polygon[j]);
        var n :| Separates(n, p, polygon[j]);
        SeparatedIsEven(n, p, polygon[j]);
      }
      EvenTotal(p, polygon);
    }
  }

  // ----- inside -----

  predicate ExactlyOn(p: Coord, a: Coord, b: Coord) {
    Turn(p, a, b) == 0.0 && Between(p.0, a.0, b.0, 0.0) && Between(p.1, a.1, b.1, 0.0)
  }

  /** Strictly inside: the three turns go the same way. */
  predicate InTriangle(p: Coord, a: Coord, b: Coord, c: Coord) {
    || (Turn(p, a, b) > 0.0 && Turn(p, b, c) > 0.0 && Turn(p, c, a) > 0.0)
    || (Turn(p, a, b) < 0.0 && Turn(p, b, c) < 0.0 && Turn(p, c, a) < 0.0)
  }

  lemma {:induction false} TurnAtHeight(p: Coord, a: Coord, b: Coord)
    requires a.1 != b.1
    ensures Turn(p, a, b) == (CrossingX(p.1, a, b) - p.0) * (b.1 - a.1)
  {
    var d, w, y := b.1 - a.1, b.0 - a.0, p.1 - a.1;
    var t := y / d;
    assert t * d == y;
    ProductsMeet(t, w, d, y);
    TurnIsCross(p, a, b);
    assert (a.0 + t * w - p.0) * d == t * w * d - (p.0 - a.0) * d;
  }

  lemma {:induction false} SignOfProduct(x: real, d: real)
    ensures d > 0.0 ==> (x > 0.0 <==> x * d > 0.0) && (x == 0.0 <==> x * d == 0.0) && (x < 0.0 <==> x * d < 0.0)
    ensures d < 0.0 ==> (x > 0.0 <==> x * d < 0.0) && (x == 0.0 <==> x * d == 0.0)
  {
  }

  /** A straddling edge is crossed when it rises with the point to its left or falls with
      the point to its right. */
  lemma {:induction false} CrossesIff(p: Coord, a: Coord, b: Coord)
    ensures Crosses(p, a, b)
      <==> (a.1 <= p.1 < b.1 && Turn(p, a, b) > 0.0) || (b.1 <= p.1 < a.1 && Turn(p, a, b) < 0.0)
    ensures Straddles(p.1, a, b) && Turn(p, a, b) == 0.0 ==> ExactlyOn(p, a, b)
  {
    if Straddles(p.1, a, b) {
      var x := CrossingX(p.1, a, b);
      TurnAtHeight(p, a, b);
      SignOfProduct(x - p.0, b.1 - a.1);
      CrossingBetween(p.1, a, b);
    }
  }

  lemma {:induction false} TurnsBalance(p: Coord, a: Coord, b: Coord, c: Coord)
    ensures Turn(p, a, b) * (c.1 - p.1) + Turn(p, b, c) * (a.1 - p.1) + Turn(p, c, a) * (b.1 - p.1) == 0.0
  {
    Balance(a.0 - p.0, a.1 - p.1, b.0 - p.0, b.1 - p.1, c.0 - p.0, c.1 - p.1);
  }

  lemma {:induction false} Balance(x: real, y: real, u: real, v: real, r: real, s: real)
    ensures (x * v - y * u) * s + (u * s - v * r) * y + (r * y - s * x) * v == 0.0
  {
    assert (x * v - y * u) * s == x * v * s - y * u * s;
    assert (u * s - v * r) * y == y * u * s - v * r * y;
    assert (r * y - s * x) * v == v * r * y - x * v * s;
  }

  /** One vertex on its own side of the point's height. */
  lemma {:induction false} Apex(p: Coord, a: Coord, b: Coord, c: Coord)
    requires (a.1 > p.1) == (b.1 > p.1) && (c.1 > p.1) != (b.1 > p.1)
    requires !ExactlyOn(p, a, b) && !ExactlyOn(p, b, c) && !ExactlyOn(p, c, a)
    ensures !Crosses(p, a, b)
    ensures Crosses(p, b, c) != Crosses(p, c, a) <==> InTriangle(p, a, b, c)
  {
    CrossesIff(p, b, c);
    CrossesIff(p, c, a);
    var d, e := Turn(p, b, c), Turn(p, c, a);
    assert Crosses(p, b, c) != Crosses(p, c, a) <==> (d > 0.0 && e > 0.0) || (d < 0.0 && e < 0.0);
    if (d > 0.0 && e > 0.0) || (d < 0.0 && e < 0.0) {
      ThirdTurn(p, a, b, c);
    }
  }

  /** Two turns the same way around a lone vertex force the third. */
  lemma {:induction false} ThirdTurn(p: Coord, a: Coord, b: Coord, c: Coord)
    requires (a.1 > p.1) == (b.1 > p.1) && (c.1 > p.1) != (b.1 > p.1)
    requires (Turn(p, b, c) > 0.0 && Turn(p, c, a) > 0.0) || (Turn(p, b, c) < 0.0 && Turn(p, c, a) < 0.0)
    ensures InTriangle(p, a, b, c) || ExactlyOn(p, a, b)
  {
    TurnsBalance(p, a, b, c);
    var x, y, u, v, r, s := a.0 - p.0, a.1 - p.1, b.0 - p.0, b.1 - p.1, c.0 - p.0, c.1 - p.1;
    var d, e, f := Turn(p, b, c), Turn(p, c, a), Turn(p, a, b);
    assert f * s == -(d * y) - e * v;
    if d > 0.0 {
      ForcedSign(d, e, f, y, v, s);
    } else {
      assert -d * y == -(d * y) && -e * v == -(e * v) && -f * s == -(f * s);
      ForcedSign(-d, -e, -f, y, v, s);
    }
    if f == 0.0 {
      assert y == 0.0 && v == 0.0 && d == u * s && e == -(s * x);
      OppositeSides(u, x, s);
    }
  }

  lemma {:induction false} ForcedSign(d: real, e: real, f: real, y: real, v: real, s: real)
    requires d > 0.0 && e > 0.0 && f * s == -(d * y) - e * v
    requires (y <= 0.0 && v <= 0.0 && s > 0.0) || (y > 0.0 && v > 0.0 && s <= 0.0)
    ensures f > 0.0 || (f == 0.0 && y == 0.0 && v == 0.0)
  {
    if s > 0.0 {
      assert d * -y >= 0.0 && e * -v >= 0.0;
      assert d * -y == -(d * y) && e * -v == -(e * v);
      SignOfProduct(f, s);
      SignOfProduct(-y, d);
      SignOfProduct(-v, e);
    } else {
      assert d * y > 0.0 && e * v > 0.0;
      SignOfProduct(f, s);
    }
  }

  lemma {:induction false} OppositeSides(u: real, x: real, s: real)
    requires (u * s > 0.0 && s * x < 0.0) || (u * s < 0.0 && s * x > 0.0)
    ensures Between(0.0, x, u, 0.0)
  {
    SignOfProduct(u, s);
    SignOfProduct(x, s);
  }

  /** Off its edges, the ray leaves a triangle an odd number of times exactly from inside. */
  lemma {:induction false} TriangleRule(p: Coord, a: Coord, b: Coord, c: Coord)
    requires !ExactlyOn(p, a, b) && !ExactlyOn(p, b, c) && !ExactlyOn(p, c, a)
    ensures (Crosses(p, a, b) != (Crosses(p, b, c) != Crosses(p, c, a))) <==> InTriangle(p, a, b, c)
  {
    if (a.1 > p.1) == (b.1 > p.1) == (c.1 > p.1) {
      Level(p, a, b, c);
    } else if (a.1 > p.1) == (b.1 > p.1) {
      Apex(p, a, b, c);
    } else if (b.1 > p.1) == (c.1 > p.1) {
      Apex(p, b, c, a);
    } else {
      Apex(p, c, a, b);
    }
  }

  lemma {:induction false} Level(p: Coord, a: Coord, b: Coord, c: Coord)
    requires (a.1 > p.1) == (b.1 > p.1) && (b.1 > p.1) == (c.1 > p.1)
    ensures !InTriangle(p, a, b, c)
  {
    TurnsBalance(p, a, b, c);
    var y, v, s := a.1 - p.1, b.1 - p.1, c.1 - p.1;
    var d, e, f := Turn(p, b, c), Turn(p, c, a), Turn(p, a, b);
    assert -d * y == -(d * y) && -e * v == -(e * v) && -f * s == -(f * s);
    NoBalance(d, e, f, y, v, s);
    NoBalance(-d, -e, -f, y, v, s);
    assert v == 0.0 && s == 0.0 ==> d == 0.0;
  }

  lemma {:induction false} NoBalance(d: real, e: real, f: real, y: real, v: real, s: real)
    requires f * s + d * y + e * v == 0.0
    requires (y <= 0.0 && v <= 0.0 && s <= 0.0) || (y > 0.0 && v > 0.0 && s > 0.0)
    ensures d > 0.0 && e > 0.0 && f > 0.0 ==> y == 0.0 && v == 0.0 && s == 0.0
  {
    SignOfProduct(y, d);
    SignOfProduct(v, e);
    SignOfProduct(s, f);
  }

  /** How many triangles of a vertex and the edges of a path hold the point. */
  function Triangles(p: Coord, v: Coord, path: Ring): nat {
    if |path| < 2 then 0
    else (if InTriangle(p, v, path[0], path[1]) then 1 else 0) + Triangles(p, v, path[1..])
  }

  /** On no edge of the path and on no line from the vertex to one of its points. */
  predicate OffFan(p: Coord, v: Coord, path: Ring) {
    && (forall k | 0 <= k < |path| :: !ExactlyOn(p, v, path[k]) && !ExactlyOn(p, path[k], v))
    && (forall k | 0 <= k < |path| - 1 :: !ExactlyOn(p, path[k], path[k + 1]))
  }

  predicate Odd(n: nat) {
    n % 2 == 1
  }

  /** The shared sides of neighbouring triangles are crossed twice and cancel. */
  lemma {:induction false} FanParity(p: Coord, v: Coord, path: Ring)
    requires path != [] && OffFan(p, v, path)
    ensures Odd(Triangles(p, v, path)) <==>
      (Odd(Crossings(p, path)) != (Crosses(p, v, path[0]) != Crosses(p, path[|path| - 1], v)))
    decreases |path|
  {
    if |path| == 1 {
      EdgeSymmetric(p, v, path[0]);
    } else {
      var rest := path[1..];
      assert forall k | 0 <= k < |rest| :: rest[k] == path[k + 1];
      FanParity(p, v, rest);
      EdgeSymmetric(p, v, rest[0]);
      TriangleRule(p, v, path[0], path[1]);
      OddAdds(InTriangle(p, v, path[0], path[1]), Triangles(p, v, rest));
      OddAdds(Crosses(p, path[0], path[1]), Crossings(p, rest));
    }
  }

  lemma {:induction false} OddAdds(one: bool, n: nat)
    ensures Odd((if one then 1 else 0) + n) <==> one != Odd(n)
  {
  }

  /** Off its edges and diagonals, a point is inside a closed ring exactly when an odd
      number of the triangles that its first vertex makes with its edges hold it. */
  lemma {:induction false} OddTriangles(p: Coord, ring: Ring)
    requires Closed(ring) && |ring| >= 2 && OffFan(p, ring[0], ring[1..])
    ensures OddRing(p, ring) <==> Odd(Triangles(p, ring[0], ring[1..]))
  {
    FanParity(p, ring[0], ring[1..]);
    OddAdds(Crosses(p, ring[0], ring[1]), Crossings(p, ring[1..]));
  }
}
