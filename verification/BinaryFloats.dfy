/** Python floats on the wire: `struct.pack("<f", ...)` as the encoder uses it and
    `struct.unpack_from` as the decoder does. A finite float is counted in units of
    2^-1074, of which every IEEE 754 double is a whole number. */
module BinaryFloats {
  import opened Varints

  datatype PyFloat =
    | NotANumber
    | Infinite(negative: bool)
    | Finite(negative: bool, units: nat)

  function Pow2(n: nat): (p: nat)
    ensures p > 0
  {
    if n == 0 then 1 else 2 * Pow2(n - 1)
  }

  // 1.0 in units
  const ONE := Pow2(1074)

  // ----- singles -----

  // 2^-149, the spacing of the smallest singles, is 2^925 units
  const FINEST := 925
  const FRACTIONS := 0x80_0000
  const INFINITY_BITS := 0x7F80_0000
  const SIGN_BIT := 0x8000_0000

  /** The magnitude of a finite single, from its bits without the sign. */
  function MagnitudeOf(bits: nat): nat {
    var exponent, fraction := bits / FRACTIONS, bits % FRACTIONS;
    if exponent == 0 then fraction * Pow2(FINEST) else (FRACTIONS + fraction) * Pow2(FINEST + exponent - 1)
  }

  function FromBits(bits: nat): PyFloat {
    var magnitude := bits % SIGN_BIT;
    if magnitude > INFINITY_BITS then NotANumber
    else if magnitude == INFINITY_BITS then Infinite(bits >= SIGN_BIT)
    else Finite(bits >= SIGN_BIT, MagnitudeOf(magnitude))
  }

  /** The quotient as an integer, ties to even. */
  function Nearest(m: nat, p: nat): (q: nat)
    requires p > 0
    ensures 2 * q * p <= 2 * m + p && 2 * m <= 2 * q * p + p
  {
    var q, r := m / p, m % p;
    assert m == q * p + r;
    NextMultiple(q, p);
    if 2 * r < p then q else if 2 * r > p then q + 1 else if q % 2 == 0 then q else q + 1
  }

  /** Half-way between two multiples the even one is taken. */
  lemma {:induction false} TieIsEven(m: nat, p: nat)
    requires p > 0 && 2 * (m % p) == p
    ensures Nearest(m, p) % 2 == 0
  {
  }

  lemma {:induction false} NextMultiple(q: nat, p: nat)
    ensures 2 * (q + 1) * p == 2 * q * p + 2 * p && 2 * q * p == 2 * (q * p)
  {}

  /** The exponent of the spacing of singles at `m`: 24 significant bits, and never finer
      than the finest. */
  function Spacing(m: nat, from: nat): (s: nat)
    requires from == FINEST || m >= Pow2(from + 23)
    ensures s >= from && m < Pow2(s + 24) && (s == FINEST || m >= Pow2(s + 23))
    decreases m - Pow2(from)
  {
    if m < Pow2(from + 24) then from
    else
      SpacingNext(m, from);
      Spacing(m, from + 1)
  }

  lemma {:induction false} SpacingNext(m: nat, from: nat)
    requires m >= Pow2(from + 24)
    ensures m >= Pow2(from + 1 + 23) && m > Pow2(from) && m - Pow2(from + 1) < m - Pow2(from)
  {
    Doubles(from, 24);
  }

  lemma {:induction false} Doubles(n: nat, k: nat)
    requires k > 0
    ensures Pow2(n + k) == Pow2(k) * Pow2(n)
    ensures Pow2(n + k) >= Pow2(n + 1) > Pow2(n)
    decreases k
  {
    if k > 1 {
      Doubles(n, k - 1);
      assert Pow2(k) * Pow2(n) == 2 * (Pow2(k - 1) * Pow2(n));
    } else {
      assert Pow2(1) == 2 * Pow2(0) == 2;
    }
  }

  /** The single nearest to a magnitude, as bits without the sign; past the largest one
      they are those of an infinity or more. */
  function BitsFor(m: nat): nat {
    var s := Spacing(m, FINEST);
    (s - FINEST) * FRACTIONS + Nearest(m, Pow2(s))
  }

  /** That single's own magnitude. */
  function NearestSingle(m: nat): nat {
    var p := Pow2(Spacing(m, FINEST));
    Nearest(m, p) * p
  }

  predicate FitsSingle(f: PyFloat) {
    f.Finite? ==> BitsFor(f.units) < INFINITY_BITS
  }

  /** A float as the single it is packed into. */
  function Narrow(f: PyFloat): PyFloat {
    if f.Finite? then Finite(f.negative, NearestSingle(f.units)) else f
  }

  function SingleBits(f: PyFloat): nat {
    match f
    case NotANumber => 0x7FC0_0000
    case Infinite(negative) => INFINITY_BITS + (if negative then SIGN_BIT else 0)
    case Finite(negative, units) => BitsFor(units) + (if negative then SIGN_BIT else 0)
  }

  // ----- bytes -----

  function Little(n: nat, size: nat): (le: Bytes)
    ensures |le| == size
  {
    if size == 0 then [] else [n % 256] + Little(n / 256, size - 1)
  }

  function LittleValue(le: Bytes): nat {
    if le == [] then 0 else le[0] + 256 * LittleValue(le[1..])
  }

  lemma {:induction false} LittleRoundTrip(n: nat, size: nat, room: nat)
    requires n < room && room == LittleRoom(size)
    ensures LittleValue(Little(n, size)) == n
    decreases size
  {
    if size > 0 {
      LittleRoundTrip(n / 256, size - 1, LittleRoom(size - 1));
      assert Little(n, size)[1..] == Little(n / 256, size - 1);
    }
  }

  function LittleRoom(size: nat): nat {
    if size == 0 then 1 else 256 * LittleRoom(size - 1)
  }

  /** `struct.pack("<f", f)`, for a float that fits. */
  function PackSingle(f: PyFloat): (le: Bytes)
    ensures |le| == 4
  {
    Little(SingleBits(f), 4)
  }

  /** `struct.unpack_from("<f", ...)`. */
  function UnpackSingle(le: Bytes): PyFloat {
    FromBits(LittleValue(le))
  }

  /** `struct.unpack_from("<d", ...)`. */
  function UnpackDouble(le: Bytes): PyFloat {
    var bits := LittleValue(le);
    var sign, magnitude := 0x8000_0000_0000_0000, bits % 0x8000_0000_0000_0000;
    var exponent, fraction := magnitude / 0x10_0000_0000_0000, magnitude % 0x10_0000_0000_0000;
    if exponent == 2047 then (if fraction == 0 then Infinite(bits >= sign) else NotANumber)
    else if exponent == 0 then Finite(bits >= sign, fraction)
    else Finite(bits >= sign, (0x10_0000_0000_0000 + fraction) * Pow2(exponent - 1))
  }

  // ----- packing rounds to the nearest single -----

  lemma {:induction false} NearestBounds(m: nat, s: nat)
    requires m < Pow2(s + 24) && (s == FINEST || m >= Pow2(s + 23))
    ensures Nearest(m, Pow2(s)) <= 2 * FRACTIONS
    ensures s > FINEST ==> Nearest(m, Pow2(s)) >= FRACTIONS
  {
    var p := Pow2(s);
    TwentyFour();
    Doubles(s, 24);
    Doubles(s, 23);
    QuotientBelow(m, p, Nearest(m, p), 2 * FRACTIONS);
    if s > FINEST {
      QuotientAbove(m, p, Nearest(m, p), FRACTIONS);
    }
  }

  lemma {:induction false} QuotientBelow(m: nat, p: nat, q: nat, n: nat)
    requires p > 0 && m < n * p && 2 * q * p <= 2 * m + p
    ensures q <= n
  {
    assert 2 * q * p == 2 * (q * p);
    Products(n, n, p);
    if q > n {
      Products(n + 1, q, p);
    }
  }

  lemma {:induction false} QuotientAbove(m: nat, p: nat, q: nat, n: nat)
    requires p > 0 && m >= n * p && 2 * m <= 2 * q * p + p
    ensures q >= n
  {
    assert 2 * q * p == 2 * (q * p);
    Products(q, q, p);
    if q < n {
      Products(q + 1, n, p);
    }
  }

  lemma {:induction false} TwentyFour()
    ensures Pow2(23) == FRACTIONS && Pow2(24) == 2 * FRACTIONS
  {
    assert Pow2(8) == 256;
    Doubles(8, 8);
    Doubles(8, 15);
    assert Pow2(15) == 128 * Pow2(8);
  }

  lemma {:induction false} Products(a: nat, b: nat, p: nat)
    requires a <= b
    ensures a * p <= b * p && (a + 1) * p == a * p + p
  {}

  /** The bits name the nearest single. */
  lemma {:induction false} BitsRoundTrip(m: nat)
    ensures MagnitudeOf(BitsFor(m)) == NearestSingle(m)
  {
    var s := Spacing(m, FINEST);
    var q := Nearest(m, Pow2(s));
    NearestBounds(m, s);
    BitsOf(s - FINEST, q, Pow2(s));
  }

  /** `q` spacings of `p` units each, the spacing `e` doublings above the finest. */
  lemma {:induction false} BitsOf(e: nat, q: nat, p: nat)
    requires p == Pow2(FINEST + e) && q <= 2 * FRACTIONS && (e > 0 ==> q >= FRACTIONS)
    ensures MagnitudeOf(e * FRACTIONS + q) == q * p
  {
    if q < FRACTIONS {
      SplitBits(0, q);
    } else if q < 2 * FRACTIONS {
      NormalBits(e, q, p);
    } else {
      CarriedBits(e, q, p);
    }
  }

  lemma {:induction false} NormalBits(e: nat, q: nat, p: nat)
    requires p == Pow2(FINEST + e) && FRACTIONS <= q < 2 * FRACTIONS
    ensures MagnitudeOf(e * FRACTIONS + q) == q * p
  {
    SplitBits(e + 1, q - FRACTIONS);
  }

  lemma {:induction false} CarriedBits(e: nat, q: nat, p: nat)
    requires p == Pow2(FINEST + e) && q == 2 * FRACTIONS
    ensures MagnitudeOf(e * FRACTIONS + q) == q * p
  {
    SplitBits(e + 2, 0);
    assert FRACTIONS * (2 * p) == 2 * FRACTIONS * p;
  }

  lemma {:induction false} SplitBits(exponent: nat, fraction: nat)
    requires fraction < FRACTIONS
    ensures (exponent * FRACTIONS + fraction) / FRACTIONS == exponent
    ensures (exponent * FRACTIONS + fraction) % FRACTIONS == fraction
  {}

  lemma {:induction false} FourBytes()
    ensures LittleRoom(4) == 2 * SIGN_BIT
  {
    assert LittleRoom(2) == 256 * LittleRoom(1) && LittleRoom(1) == 256 * LittleRoom(0);
    assert LittleRoom(4) == 256 * LittleRoom(3) && LittleRoom(3) == 256 * LittleRoom(2);
  }

  lemma {:induction false} SignedBits(magnitude: nat, negative: bool)
    requires magnitude < SIGN_BIT
    ensures var bits := magnitude + (if negative then SIGN_BIT else 0);
            bits < 2 * SIGN_BIT && bits % SIGN_BIT == magnitude && (bits >= SIGN_BIT <==> negative)
  {}

  lemma {:induction false} BitsBack(f: PyFloat)
    requires FitsSingle(f)
    ensures SingleBits(f) < 2 * SIGN_BIT && FromBits(SingleBits(f)) == Narrow(f)
  {
    match f {
      case NotANumber => SignedBits(SingleBits(f), false);
      case Infinite(negative) => SignedBits(INFINITY_BITS, negative);
      case Finite(negative, units) =>
        SignedBits(BitsFor(units), negative);
        BitsRoundTrip(units);
    }
  }

  /** What is unpacked is what was packed, narrowed. */
  lemma {:induction false} SingleRoundTrip(f: PyFloat)
    requires FitsSingle(f)
    ensures UnpackSingle(PackSingle(f)) == Narrow(f)
  {
    BitsBack(f);
    FourBytes();
    LittleRoundTrip(SingleBits(f), 4, LittleRoom(4));
  }

  function Distance(a: nat, b: nat): nat {
    if a < b then b - a else a - b
  }

  /** No single is nearer. */
  lemma {:induction false} NothingNearer(m: nat, bits: nat)
    ensures Distance(NearestSingle(m), m) <= Distance(MagnitudeOf(bits), m)
  {
    var s := Spacing(m, FINEST);
    var p, v := Pow2(s), MagnitudeOf(bits);
    var exponent, fraction := bits / FRACTIONS, bits % FRACTIONS;
    var t := if exponent == 0 then FINEST else FINEST + exponent - 1;
    var f := if exponent == 0 then fraction else FRACTIONS + fraction;
    assert v == f * Pow2(t);
    if t >= s {
      var k := MultipleOf(f, t, s);
      NoMultipleNearer(m, p, k);
    } else {
      CoarserBelow(f, t, s);
      NoMultipleNearer(m, p, FRACTIONS);
      TwentyFour();
      Doubles(s, 23);
    }
  }

  lemma {:induction false} MultipleOf(f: nat, t: nat, s: nat) returns (k: nat)
    requires t >= s
    ensures f * Pow2(t) == k * Pow2(s)
  {
    if t == s {
      k := f;
    } else {
      Doubles(s, t - s);
      k := f * Pow2(t - s);
      assert f * (Pow2(t - s) * Pow2(s)) == k * Pow2(s);
    }
  }

  lemma {:induction false} CoarserBelow(f: nat, t: nat, s: nat)
    requires t < s && f < 2 * FRACTIONS
    ensures f * Pow2(t) <= FRACTIONS * Pow2(s)
  {
    Doubles(t, s - t);
    Products(f, 2 * FRACTIONS, Pow2(t));
    assert Pow2(t + 1) == 2 * Pow2(t);
    Products(2, 2, Pow2(t));
    assert 2 * FRACTIONS * Pow2(t) == FRACTIONS * Pow2(t + 1);
    assert FRACTIONS * Pow2(t + 1) <= FRACTIONS * Pow2(s);
  }

  lemma {:induction false} NoMultipleNearer(m: nat, p: nat, k: nat)
    requires p > 0
    ensures Distance(Nearest(m, p) * p, m) <= Distance(k * p, m)
  {
    var q := Nearest(m, p);
    NextMultiple(q, p);
    if k > q {
      Products(q + 1, k, p);
      Products(q, q, p);
    } else if k < q {
      Products(k, q - 1, p);
      Products(q - 1, q - 1, p);
    }
  }

  // ----- which floats are singles -----

  ghost predicate IsSingle(f: PyFloat) {
    exists bits: nat :: bits < 2 * SIGN_BIT && FromBits(bits) == f
  }

  lemma {:induction false} NarrowTwice(f: PyFloat)
    requires FitsSingle(f)
    ensures FitsSingle(Narrow(f)) && Narrow(Narrow(f)) == Narrow(f)
  {
    if f.Finite? {
      BitsRoundTrip(f.units);
      SingleMagnitude(BitsFor(f.units));
    }
  }

  /** A single is its own nearest single. */
  lemma {:induction false} SingleMagnitude(bits: nat)
    requires bits < INFINITY_BITS
    ensures NearestSingle(MagnitudeOf(bits)) == MagnitudeOf(bits)
    ensures BitsFor(MagnitudeOf(bits)) == bits
  {
    var m := MagnitudeOf(bits);
    NothingNearer(m, bits);
    assert NearestSingle(m) == m;
    BitsRoundTrip(m);
    MagnitudesDiffer(BitsFor(m), bits);
  }

  lemma {:induction false} MagnitudesIncrease(a: nat, b: nat)
    requires a < b
    ensures MagnitudeOf(a) < MagnitudeOf(b)
    decreases b
  {
    if a < b - 1 {
      MagnitudesIncrease(a, b - 1);
    }
    OneBitMore(b - 1);
  }

  lemma {:induction false} OneBitMore(bits: nat)
    ensures MagnitudeOf(bits) < MagnitudeOf(bits + 1)
  {
    var e, f := bits / FRACTIONS, bits % FRACTIONS;
    assert bits == e * FRACTIONS + f;
    if f + 1 < FRACTIONS {
      SameBinade(e, f);
    } else {
      NextBinade(e);
    }
  }

  lemma {:induction false} SameBinade(e: nat, f: nat)
    requires f + 1 < FRACTIONS
    ensures MagnitudeOf(e * FRACTIONS + f) < MagnitudeOf(e * FRACTIONS + f + 1)
  {
    SplitBits(e, f);
    SplitBits(e, f + 1);
    var p, g := Pow2(if e == 0 then FINEST else FINEST + e - 1), if e == 0 then f else FRACTIONS + f;
    Products(g, g, p);
  }

  lemma {:induction false} NextBinade(e: nat)
    ensures MagnitudeOf(e * FRACTIONS + (FRACTIONS - 1)) < MagnitudeOf(e * FRACTIONS + FRACTIONS)
  {
    SplitBits(e, FRACTIONS - 1);
    SplitBits(e + 1, 0);
    var p := Pow2(FINEST + e);
    if e == 0 {
      Products(FRACTIONS - 1, FRACTIONS - 1, p);
    } else {
      var half := Pow2(FINEST + e - 1);
      Products(2 * FRACTIONS - 1, 2 * FRACTIONS - 1, half);
      assert FRACTIONS * (2 * half) == 2 * FRACTIONS * half;
    }
  }

  lemma {:induction false} MagnitudesDiffer(a: nat, b: nat)
    requires MagnitudeOf(a) == MagnitudeOf(b)
    ensures a == b
  {
    if a < b {
      MagnitudesIncrease(a, b);
    } else if b < a {
      MagnitudesIncrease(b, a);
    }
  }

  /** Packing leaves a float as it is exactly when it is a single. */
  lemma {:induction false} UnchangedIff(f: PyFloat)
    requires FitsSingle(f)
    ensures Narrow(f) == f <==> IsSingle(f)
  {
    if IsSingle(f) && f.Finite? {
      var bits: nat :| bits < 2 * SIGN_BIT && FromBits(bits) == f;
      SingleMagnitude(bits % SIGN_BIT);
    }
    if Narrow(f) == f {
      BitsBack(f);
    }
  }

  // ----- 0.82 -----

  /** The double that `0.82` is read as. */
  const POINT_EIGHT_TWO := Finite(false, 7385903388887613 * Pow2(1021))

  lemma {:induction false} SpacingIs(m: nat, from: nat, s: nat)
    requires FINEST <= from <= s && m < Pow2(s + 24) && m >= Pow2(s + 23)
    ensures (from == FINEST || m >= Pow2(from + 23)) && Spacing(m, from) == s
    decreases s - from
  {
    if from < s {
      GrowsTo(from + 24, s + 23);
      SpacingIs(m, from + 1, s);
    }
  }

  lemma {:induction false} GrowsTo(a: nat, b: nat)
    requires a <= b
    ensures Pow2(a) <= Pow2(b)
    decreases b
  {
    if a < b {
      GrowsTo(a, b - 1);
    }
  }

  lemma {:induction false} PowAt(n: nat)
    ensures Pow2(n + 52) == 0x10_0000_0000_0000 * Pow2(n) && Pow2(n + 53) == 0x20_0000_0000_0000 * Pow2(n)
    ensures Pow2(n + 29) == 0x2000_0000 * Pow2(n)
  {
    TwentyFour();
    Doubles(n, 29);
    Doubles(n + 29, 23);
    assert Pow2(29) == 64 * Pow2(23);
    assert FRACTIONS * (0x2000_0000 * Pow2(n)) == 0x10_0000_0000_0000 * Pow2(n);
  }

  lemma {:induction false} NearPoint(p: nat, m: nat)
    requires p == Pow2(1021) && m == 7385903388887613 * p
    ensures Spacing(m, FINEST) == 1050 && Pow2(1050) == 0x2000_0000 * p
  {
    PowAt(1021);
    Products(0x10_0000_0000_0000, 7385903388887613, p);
    Products(7385903388887613, 0x1F_FFFF_FFFF_FFFF, p);
    Products(0x1F_FFFF_FFFF_FFFF, 0x1F_FFFF_FFFF_FFFF, p);
    SpacingIs(m, FINEST, 1050);
  }

  lemma {:induction false} OddMultiple(q: nat, p: nat)
    requires p > 0
    ensures q * (0x2000_0000 * p) != 7385903388887613 * p
  {
    assert q * (0x2000_0000 * p) == (q * 0x2000_0000) * p;
    DifferentFactors(q * 0x2000_0000, 7385903388887613, p);
  }

  /** It fits a single, and is not one. */
  lemma {:induction false} PointEightTwoIsNarrowed()
    ensures FitsSingle(POINT_EIGHT_TWO) && Narrow(POINT_EIGHT_TWO) != POINT_EIGHT_TWO
  {
    var p: nat, m: nat := Pow2(1021), POINT_EIGHT_TWO.units;
    NearPoint(p, m);
    NearestBounds(m, 1050);
    OddMultiple(Nearest(m, Pow2(1050)), p);
    assert BitsFor(m) == 125 * FRACTIONS + Nearest(m, Pow2(1050));
  }

  lemma {:induction false} DifferentFactors(a: nat, b: nat, p: nat)
    requires p > 0 && a != b
    ensures a * p != b * p
  {
    if a < b {
      Products(a + 1, b, p);
      Products(a, a, p);
    } else {
      Products(b + 1, a, p);
      Products(b, b, p);
    }
  }
}
