/** The encoded polyline of `encode_polyline` in `scripts/make-synthetic-fixtures.py`, and a
    decoder that shows what the string still says. */
module Polylines {
  import opened Wrappers
  import F = Floats

  /** A latitude and a longitude, in units of 1e-5 degrees. */
  type GridPoint = (int, int)

  /** Sign in the lowest bit. */
  function Fold(delta: int): nat {
    if delta < 0 then -2 * delta - 1 else 2 * delta
  }

  function Unfold(value: nat): int {
    if value % 2 == 1 then -(value + 1) / 2 else value / 2
  }

  function Letter(v: nat): char
    requires v < 64
  {
    (v + 63) as char
  }

  /** Five bits a letter, lowest first; every letter but the last has the sixth bit set. */
  function Letters(value: nat): string {
    if value >= 32 then [Letter(32 + value % 32)] + Letters(value / 32) else [Letter(value)]
  }

  function OnGrid(point: (real, real)): GridPoint {
    (F.RoundHalfEven(point.1 * 100000.0), F.RoundHalfEven(point.0 * 100000.0))
  }

  function Grid(points: seq<(real, real)>): seq<GridPoint> {
    seq(|points|, k requires 0 <= k < |points| => OnGrid(points[k]))
  }

  function Step(from: GridPoint, to: GridPoint): string {
    Letters(Fold(to.0 - from.0)) + Letters(Fold(to.1 - from.1))
  }

  function Encoded(points: seq<GridPoint>, from: GridPoint): string {
    if points == [] then "" else Step(from, points[0]) + Encoded(points[1..], points[0])
  }

  // ----- the encoder -----

  method AppendValue(out: string, delta: int) returns (out': string)
    ensures out' == out + Letters(Fold(delta))
  {
    out' := out;
    var value := Fold(delta);
    while value >= 32
      invariant out' + Letters(value) == out + Letters(Fold(delta))
    {
      Unrolled(out', value);
      out' := out' + [Letter(32 + value % 32)];
      value := value / 32;
    }
    out' := out' + [Letter(value)];
  }

  lemma {:induction false} Unrolled(out: string, value: nat)
    requires value >= 32
    ensures out + [Letter(32 + value % 32)] + Letters(value / 32) == out + Letters(value)
  {}

  method EncodePolyline(points: seq<(real, real)>) returns (out: string)
    ensures out == Encoded(Grid(points), (0, 0))
  {
    out := "";
    var prev: GridPoint := (0, 0);
    var grid := Grid(points);
    assert grid[0..] == grid;
    for k := 0 to |points|
      invariant out + Encoded(grid[k..], prev) == Encoded(grid, (0, 0))
    {
      var at := OnGrid(points[k]);
      FirstStep(out, grid, k, prev);
      out := AppendPoint(out, prev, at);
      prev := at;
    }
  }

  method AppendPoint(out: string, from: GridPoint, to: GridPoint) returns (out': string)
    ensures out' == out + Step(from, to)
  {
    out' := AppendValue(out, to.0 - from.0);
    out' := AppendValue(out', to.1 - from.1);
  }

  lemma {:induction false} FirstStep(out: string, grid: seq<GridPoint>, k: nat, from: GridPoint)
    requires k < |grid|
    ensures out + Step(from, grid[k]) + Encoded(grid[k + 1..], grid[k]) == out + Encoded(grid[k..], from)
  {
    assert grid[k..][1..] == grid[k + 1..];
    Regroup(out, Step(from, grid[k]), Encoded(grid[k + 1..], grid[k]));
  }

  lemma {:induction false} Regroup(a: string, b: string, c: string)
    ensures a + b + c == a + (b + c)
  {}

  // ----- a decoder -----

  /** The value at the head of the string and what follows it. */
  function ReadValue(s: string): (r: Option<(nat, string)>)
    ensures r.Some? ==> |r.value.1| < |s|
  {
    if s == [] || (s[0] as int) < 63 || (s[0] as int) >= 127 then None
    else
      var bits := s[0] as int - 63;
      if bits < 32 then Some((bits, s[1..]))
      else
        var rest := ReadValue(s[1..]);
        if rest.None? then None else Some((bits - 32 + 32 * rest.value.0, rest.value.1))
  }

  /** The point whose deltas stand at the head of the string, and what follows. */
  function ReadPoint(s: string, from: GridPoint): (r: Option<(GridPoint, string)>)
    ensures r.Some? ==> |r.value.1| < |s|
  {
    var lat := ReadValue(s);
    if lat.None? then None
    else
      var lon := ReadValue(lat.value.1);
      if lon.None? then None
      else Some(((from.0 + Unfold(lat.value.0), from.1 + Unfold(lon.value.0)), lon.value.1))
  }

  function Decoded(s: string, from: GridPoint): Option<seq<GridPoint>>
    decreases |s|
  {
    if s == [] then Some([])
    else
      var point := ReadPoint(s, from);
      if point.None? then None
      else
        var rest := Decoded(point.value.1, point.value.0);
        if rest.None? then None else Some([point.value.0] + rest.value)
  }

  lemma {:induction false} FoldInverse(delta: int)
    ensures Unfold(Fold(delta)) == delta
  {}

  lemma {:induction false} LettersRead(value: nat, rest: string)
    ensures ReadValue(Letters(value) + rest) == Some((value, rest))
    decreases value
  {
    if value >= 32 {
      LettersRead(value / 32, rest);
      assert (Letters(value) + rest)[1..] == Letters(value / 32) + rest;
    } else {
      assert (Letters(value) + rest)[1..] == rest;
    }
  }

  lemma {:induction false} PointRead(from: GridPoint, to: GridPoint, rest: string)
    ensures ReadPoint(Step(from, to) + rest, from) == Some((to, rest))
  {
    var lat, lon := Fold(to.0 - from.0), Fold(to.1 - from.1);
    assert Step(from, to) + rest == Letters(lat) + (Letters(lon) + rest);
    LettersRead(lat, Letters(lon) + rest);
    LettersRead(lon, rest);
    FoldInverse(to.0 - from.0);
    FoldInverse(to.1 - from.1);
  }

  lemma {:induction false} DecodesFirst(s: string, from: GridPoint, to: GridPoint, rest: string, tail: seq<GridPoint>)
    requires ReadPoint(s, from) == Some((to, rest)) && Decoded(rest, to) == Some(tail)
    ensures Decoded(s, from) == Some([to] + tail)
  {}

  /** The string determines every rounded point, whatever the size of the deltas. */
  lemma {:induction false} PolylineRoundTrip(points: seq<GridPoint>, from: GridPoint)
    ensures Decoded(Encoded(points, from), from) == Some(points)
    decreases |points|
  {
    if points != [] {
      var to, rest := points[0], Encoded(points[1..], points[0]);
      PolylineRoundTrip(points[1..], to);
      PointRead(from, to, rest);
      DecodesFirst(Encoded(points, from), from, to, rest, points[1..]);
      assert points == [to] + points[1..];
    }
  }

  /** Two lines share an encoding exactly when their points round alike. */
  lemma {:induction false} SameEncodingIff(a: seq<(real, real)>, b: seq<(real, real)>)
    ensures Encoded(Grid(a), (0, 0)) == Encoded(Grid(b), (0, 0)) <==> Grid(a) == Grid(b)
  {
    PolylineRoundTrip(Grid(a), (0, 0));
    PolylineRoundTrip(Grid(b), (0, 0));
  }

  // ----- what is written -----

  /** Latitude first, then longitude, each to the nearest hundred-thousandth of a degree. */
  lemma {:induction false} OnGridIs(lon: real, lat: real)
    ensures var (y, x) := OnGrid((lon, lat));
            F.AbsReal(y as real - lat * 100000.0) <= 0.5 && F.AbsReal(x as real - lon * 100000.0) <= 0.5
  {
  }

  lemma {:induction false} LettersOf(value: nat, first: nat, rest: nat)
    requires value >= 32 && first == 32 + value % 32 && rest == value / 32
    ensures Letters(value) == [Letter(first)] + Letters(rest)
  {}

  /** 38.5 is written as `_p~iF` and -120.2 as `~ps|U`. */
  lemma {:induction false} KnownValues()
    ensures Letters(Fold(3850000)) == "_p~iF"
    ensures Letters(Fold(-12020000)) == "~ps|U"
  {
    LettersOf(7700000, 32, 240625);
    LettersOf(240625, 49, 7519);
    LettersOf(7519, 63, 234);
    LettersOf(234, 42, 7);
    LettersOf(24039999, 63, 751249);
    LettersOf(751249, 49, 23476);
    LettersOf(23476, 52, 733);
    LettersOf(733, 61, 22);
  }
}
