/** What single messages mean to the decoder, field by field and byte by byte. */
module TileMeaning {
  import opened Varints
  import opened BinaryFloats
  import opened Wire
  import opened Tiles
  import opened Wrappers
  import opened TileEncoder

  // ----- numbers on the wire -----

  lemma {:induction false} ZigZagIs(n: nat)
    ensures ZigZag(2 * n) == n && ZigZag(2 * n + 1) == -1 - n
  {
    assert ZigZag(2 * n) == n;
  }

  /** The groups of a varint are written lowest first: 300 is AC 02. */
  lemma {:induction false} ThreeHundred()
    ensures VarintBytes(300) == [0xAC, 0x02]
  {
    assert VarintBytes(2) == [2];
  }

  lemma {:induction false} Spread(a: nat, b: nat)
    ensures 256 * (a * b) == 256 * a * b
  {}

  lemma {:induction false} LittleSplit(le: Bytes, n: nat)
    requires n <= |le|
    ensures LittleValue(le) == LittleValue(le[..n]) + LittleRoom(n) * LittleValue(le[n..])
    decreases n
  {
    if n > 0 {
      var rest := le[1..];
      LittleSplit(rest, n - 1);
      assert le[..n][1..] == rest[..n - 1] && le[n..] == rest[n - 1..];
      assert LittleValue(le[..n]) == le[0] + 256 * LittleValue(rest[..n - 1]);
      Spread(LittleRoom(n - 1), LittleValue(le[n..]));
    } else {
      assert le[..0] == [] && le[0..] == le;
    }
  }

  lemma {:induction false} LittleBound(le: Bytes)
    ensures LittleValue(le) < LittleRoom(|le|)
    decreases |le|
  {
    if le != [] {
      LittleBound(le[1..]);
    }
  }

  lemma {:induction false} SixBytes()
    ensures LittleRoom(6) == 0x1_0000_0000_0000
  {
    assert LittleRoom(1) == 256 * LittleRoom(0);
    assert LittleRoom(2) == 256 * LittleRoom(1);
    assert LittleRoom(3) == 256 * LittleRoom(2);
    assert LittleRoom(4) == 256 * LittleRoom(3);
    assert LittleRoom(5) == 256 * LittleRoom(4);
  }

  /** The last two of eight bytes hold the sign, eleven bits of exponent and the upper four
      of the fraction; the significand counts units of 2^-1074 doubled once for every
      exponent past the first. */
  lemma {:induction false} DoubleIs(le: Bytes)
    requires |le| == 8
    ensures var six: nat, seven: nat := le[6], le[7];
            var negative, exponent := seven >= 128, seven % 128 * 16 + six / 16;
            var fraction := six % 16 * 0x1_0000_0000_0000 + LittleValue(le[..6]);
            UnpackDouble(le) ==
              if exponent == 2047 then (if fraction == 0 then Infinite(negative) else NotANumber)
              else if exponent == 0 then Finite(negative, fraction)
              else Finite(negative, (0x10_0000_0000_0000 + fraction) * Pow2(exponent - 1))
  {
    var low := LittleValue(le[..6]);
    LittleSplit(le, 6);
    LittleBound(le[..6]);
    SixBytes();
    assert le[6..] == [le[6], le[7]] && [le[6], le[7]][1..] == [le[7]] && [le[7]][1..] == [];
    assert LittleValue([le[7]]) == le[7] + 256 * LittleValue([]);
    assert LittleValue([le[6], le[7]]) == le[6] + 256 * LittleValue([le[7]]);
    DoubleBits(low, le[6], le[7]);
  }

  lemma {:induction false} DoubleBits(low: nat, six: nat, seven: nat)
    requires low < 0x1_0000_0000_0000 && six < 256 && seven < 256
    ensures var bits := low + 0x1_0000_0000_0000 * (six + 256 * seven);
            var magnitude := bits % 0x8000_0000_0000_0000;
            && (bits >= 0x8000_0000_0000_0000 <==> seven >= 128)
            && magnitude / 0x10_0000_0000_0000 == seven % 128 * 16 + six / 16
            && magnitude % 0x10_0000_0000_0000 == six % 16 * 0x1_0000_0000_0000 + low
  {
    var sign, top, q, r := seven / 128, seven % 128, six / 16, six % 16;
    assert seven == 128 * sign + top && six == 16 * q + r;
    SplitDouble(low, r, q, top, sign);
  }

  lemma {:induction false} SplitDouble(low: nat, r: nat, q: nat, top: nat, sign: nat)
    requires low < 0x1_0000_0000_0000 && r < 16 && q < 16 && top < 128 && sign < 2
    ensures var bits := low + 0x1_0000_0000_0000 * (16 * q + r + 256 * (128 * sign + top));
            var magnitude := bits % 0x8000_0000_0000_0000;
            && (bits >= 0x8000_0000_0000_0000 <==> sign == 1)
            && magnitude / 0x10_0000_0000_0000 == top * 16 + q
            && magnitude % 0x10_0000_0000_0000 == r * 0x1_0000_0000_0000 + low
  {
    var fraction := r * 0x1_0000_0000_0000 + low;
    var magnitude := (top * 16 + q) * 0x10_0000_0000_0000 + fraction;
    assert fraction < 0x10_0000_0000_0000 && magnitude < 0x8000_0000_0000_0000;
    assert low + 0x1_0000_0000_0000 * (16 * q + r + 256 * (128 * sign + top))
        == sign * 0x8000_0000_0000_0000 + magnitude;
  }

  /** 00 00 80 3F is the single 1.0. */
  lemma {:induction false} OneAsSingle()
    ensures UnpackSingle([0x00, 0x00, 0x80, 0x3F]) == Finite(false, ONE)
  {
    LittleIs([0x3F]);
    LittleIs([0x80, 0x3F]);
    LittleIs([0x00, 0x80, 0x3F]);
    LittleIs([0x00, 0x00, 0x80, 0x3F]);
    SingleOneBits();
  }

  lemma {:induction false} LittleIs(le: Bytes)
    requires le != []
    ensures LittleValue(le) == le[0] + 256 * LittleValue(le[1..])
  {}

  lemma {:induction false} SingleOneBits()
    ensures FromBits(0x3F80_0000) == Finite(false, ONE)
  {
    TwentyFour();
    Doubles(1051, 23);
    assert MagnitudeOf(0x3F80_0000) == (FRACTIONS + 0) * Pow2(FINEST + 127 - 1);
  }

  lemma {:induction false} Bias(exponent: nat)
    requires exponent == 1023
    ensures 0x10_0000_0000_0000 * Pow2(exponent - 1) == ONE
  {
    PowAt(exponent - 1);
  }

  lemma {:induction false} DoubleOne(le: Bytes, six: nat, seven: nat)
    requires |le| == 8 && le[7] == seven && le[6] == six && forall k | 0 <= k < 6 :: le[k] == 0
    requires six % 16 == 0 && seven < 128 && seven * 16 + six / 16 == 1023
    ensures UnpackDouble(le) == Finite(false, ONE)
  {
    var exponent := seven * 16 + six / 16;
    DoubleIs(le);
    assert seven % 128 == seven;
    ZerosAreZero(le[..6]);
    Bias(exponent);
  }

  /** 00 00 00 00 00 00 F0 3F is the double 1.0. */
  lemma {:induction false} OneAsDouble()
    ensures UnpackDouble([0x00, 0x00, 0x00, 0x00, 0x00, 0x00, 0xF0, 0x3F]) == Finite(false, ONE)
  {
    DoubleOne([0x00, 0x00, 0x00, 0x00, 0x00, 0x00, 0xF0, 0x3F], 0xF0, 0x3F);
  }

  lemma {:induction false} ZerosAreZero(le: Bytes)
    requires forall k | 0 <= k < |le| :: le[k] == 0
    ensures LittleValue(le) == 0
    decreases |le|
  {
    if le != [] {
      ZerosAreZero(le[1..]);
    }
  }

  // ----- framing -----

  function DoubleField(number: nat, le: Bytes): (r: Bytes)
    ensures r != []
  {
    Tag(number, 1) + le
  }

  lemma {:induction false} ReadDoubleField(number: nat, le: Bytes, rest: Bytes)
    requires number * 8 + 1 < VARINT_LIMIT && |le| == 8
    ensures NextField(DoubleField(number, le) + rest)
         == Ok((Field(number, Float(UnpackDouble(le))), |DoubleField(number, le)|))
  {
    var s := DoubleField(number, le) + rest;
    assert s == Tag(number, 1) + (le + rest);
    ReadTag(number, 1, le + rest);
    assert s[|Tag(number, 1)|..] == le + rest;
    assert (le + rest)[..8] == le;
  }

  /** Wire types 3, 4, 6 and 7 are refused, whatever follows. */
  lemma {:induction false} UnsupportedRefused(number: nat, wire: nat, rest: Bytes)
    requires wire in {3, 4, 6, 7} && number * 8 + wire < VARINT_LIMIT
    ensures FieldsOf(Tag(number, wire) + rest) == Err(UnsupportedWireType)
  {
    ReadTag(number, wire, rest);
  }

  lemma {:induction false} TagThenValue(number: nat, wire: nat, rest: Bytes)
    requires wire < 8 && number * 8 + wire < VARINT_LIMIT && ValueAt(rest, wire).Err?
    ensures NextField(Tag(number, wire) + rest) == Err(ValueAt(rest, wire).error)
  {
    var s := Tag(number, wire) + rest;
    ReadTag(number, wire, rest);
    assert s[|Tag(number, wire)|..] == rest;
  }

  lemma {:induction false} FieldAfterTag(number: nat, wire: nat, rest: Bytes)
    requires wire < 8 && number * 8 + wire < VARINT_LIMIT
    ensures ValueAt(rest, wire).Err? ==> FieldsOf(Tag(number, wire) + rest) == Err(ValueAt(rest, wire).error)
  {
    if ValueAt(rest, wire).Err? {
      TagThenValue(number, wire, rest);
    }
  }

  /** A payload or a float cut short is refused. */
  lemma {:induction false} CutShortRefused(number: nat, length: nat, payload: Bytes)
    requires number * 8 + 5 < VARINT_LIMIT && |payload| < length < VARINT_LIMIT
    ensures FieldsOf(Tag(number, 2) + (VarintBytes(length) + payload)) == Err(TruncatedField)
    ensures |payload| < 4 ==> FieldsOf(Tag(number, 5) + payload) == Err(TruncatedField)
    ensures |payload| < 8 ==> FieldsOf(Tag(number, 1) + payload) == Err(TruncatedField)
  {
    VarintRoundTrip(length, payload);
    FieldAfterTag(number, 2, VarintBytes(length) + payload);
    FieldAfterTag(number, 5, payload);
    FieldAfterTag(number, 1, payload);
  }

  // ----- values -----

  lemma {:induction false} FirstFieldDecides(written: Bytes, f: Field, rest: Bytes)
    requires written != [] && NextField(written + rest) == Ok((f, |written|))
    ensures ValueOf(written + rest) == if IsValueField(f) then ValueIn(f) else ValueOf(rest)
  {
    assert (written + rest)[|written|..] == rest;
  }

  /** A value message that begins with a varint: fields 2 to 5 give the number, 6 its
      zigzag, 7 its truth; text it cannot be; any other field is passed over. */
  lemma {:induction false} NumberMeans(number: nat, n: nat, rest: Bytes)
    requires number * 8 < VARINT_LIMIT && n < VARINT_LIMIT
    ensures ValueOf(VarintField(number, n) + rest) ==
      if number == 1 then Err(WrongType)
      else if number in {2, 3, 4, 5} then Ok(Integer(n))
      else if number == 6 then Ok(Integer(if n % 2 == 0 then n / 2 else -(n / 2) - 1))
      else if number == 7 then Ok(Boolean(n > 0))
      else ValueOf(rest)
  {
    ReadVarintField(number, n, rest);
    FirstFieldDecides(VarintField(number, n), Field(number, Number(n)), rest);
    ZigZagIs(n / 2);
  }

  /** One that begins with bytes: field 1 is text, 2 to 5 the bytes, 7 whether there are
      any; a zigzag they cannot be. */
  lemma {:induction false} BytesMean(number: nat, payload: Bytes, rest: Bytes)
    requires number * 8 + 2 < VARINT_LIMIT && |payload| < VARINT_LIMIT
    ensures ValueOf(BytesField(number, payload) + rest) ==
      if number == 1 then Ok(Text(payload))
      else if number in {2, 3, 4, 5} then Ok(Blob(payload))
      else if number == 6 then Err(WrongType)
      else if number == 7 then Ok(Boolean(|payload| > 0))
      else ValueOf(rest)
  {
    ReadBytesField(number, payload, rest);
    FirstFieldDecides(BytesField(number, payload), Field(number, Payload(payload)), rest);
  }

  /** What a float in each value field means. */
  function FloatValue(number: nat, f: PyFloat, rest: Result<Value>): Result<Value> {
    if number == 1 || number == 6 then Err(WrongType)
    else if number in {2, 3, 4, 5} then Ok(Real(f))
    else if number == 7 then Ok(Boolean(f != Finite(false, 0) && f != Finite(true, 0)))
    else rest
  }

  /** One that begins with a float of either size. */
  lemma {:induction false} FloatsMean(number: nat, single: Bytes, double: Bytes, rest: Bytes)
    requires number * 8 + 5 < VARINT_LIMIT && |single| == 4 && |double| == 8
    ensures ValueOf(FloatField(number, single) + rest) == FloatValue(number, UnpackSingle(single), ValueOf(rest))
    ensures ValueOf(DoubleField(number, double) + rest) == FloatValue(number, UnpackDouble(double), ValueOf(rest))
  {
    ReadFloatField(number, single, rest);
    FirstFieldDecides(FloatField(number, single), Field(number, Float(UnpackSingle(single))), rest);
    ReadDoubleField(number, double, rest);
    FirstFieldDecides(DoubleField(number, double), Field(number, Float(UnpackDouble(double))), rest);
  }

  /** No field at all is None. */
  lemma {:induction false} NothingIsAbsent()
    ensures ValueOf([]) == Ok(Absent)
  {}

  // ----- geometry type and extent -----

  lemma {:induction false} OneField(written: Bytes, f: Field)
    requires written != [] && NextField(written + []) == Ok((f, |written|))
    ensures FieldsOf(written) == Ok([f])
  {
    assert written + [] == written && [f] + [] == [f];
    WalkField(written, f, []);
  }

  /** The type enumeration: 1 is a point, 2 a line, 3 a polygon. */
  lemma {:induction false} TypeMeans(n: nat, keys: seq<Bytes>, values: seq<Value>)
    requires n < VARINT_LIMIT
    ensures FeatureOf(Payload(VarintField(3, n)), keys, values)
         == Ok(TileFeature(
                 if n == 1 then PointType else if n == 2 then LineStringType else if n == 3 then PolygonType
                 else Unknown, [], map[]))
  {
    var f := Field(3, Number(n));
    ReadVarintField(3, n, []);
    OneField(VarintField(3, n), f);
    assert [f][1..] == [];
    var start := FeatureParts([], Unknown, []);
    var parts := start.(geometryType := GeometryTypeOf(Number(n)));
    assert FeatureFields(start, [f]) == FeatureFields(parts, []) == Ok(parts);
  }

  /** A float finds the type of the whole number it equals. */
  lemma {:induction false} FloatTypeMeans(
      le: Bytes, negative: bool, n: nat, keys: seq<Bytes>, values: seq<Value>)
    requires |le| == 4 && UnpackSingle(le) == Finite(negative, n * ONE)
    ensures FeatureOf(Payload(FloatField(3, le)), keys, values)
         == Ok(TileFeature(
                 if negative then Unknown else if n == 1 then PointType else if n == 2 then LineStringType
                 else if n == 3 then PolygonType else Unknown, [], map[]))
  {
    var f := Field(3, Float(UnpackSingle(le)));
    ReadFloatField(3, le, []);
    OneField(FloatField(3, le), f);
    assert [f][1..] == [];
    WholeMultiples(n, 1, ONE);
    WholeMultiples(n, 2, ONE);
    WholeMultiples(n, 3, ONE);
    var start := FeatureParts([], Unknown, []);
    var parts := start.(geometryType := GeometryTypeOf(f.value));
    assert FeatureFields(start, [f]) == FeatureFields(parts, []) == Ok(parts);
  }

  /** A layer's extent is the number given, 4096 when it is zero or missing. */
  lemma {:induction false} ExtentMeans(n: nat)
    requires n < VARINT_LIMIT
    ensures LayerOf(Payload(VarintField(5, n))) == Ok(TileLayer([], Number(if n > 0 then n else 4096), []))
    ensures LayerOf(Payload([])) == Ok(TileLayer([], Number(4096), []))
  {
    var f := Field(5, Number(n));
    ReadVarintField(5, n, []);
    OneField(VarintField(5, n), f);
    assert [f][1..] == [];
    var parts := EMPTY_PARTS.(extent := Number(if n > 0 then n else 4096));
    assert LayerFields(EMPTY_PARTS, [f]) == LayerFields(parts, []) == Ok(parts);
  }

  // ----- fields passed over, and fields in pieces -----

  lemma {:induction false} FieldFirst(written: Bytes, f: Field, rest: Bytes, fields: seq<Field>)
    requires written != [] && NextField(written + rest) == Ok((f, |written|)) && FieldsOf(rest) == Ok(fields)
    ensures FieldsOf(written + rest) == Ok([f] + fields) && ([f] + fields)[1..] == fields
  {
    WalkField(written, f, rest);
  }

  /** Fields the decoder does not know are passed over: in a feature all but 2 to 4, in a
      layer all but 1 to 5, in a tile all but 3. */
  lemma {:induction false} UnknownPassedOver(number: nat, n: nat, rest: Bytes, keys: seq<Bytes>, values: seq<Value>)
    requires number * 8 < VARINT_LIMIT && n < VARINT_LIMIT && FieldsOf(rest).Ok?
    ensures number !in {2, 3, 4} ==>
      FeatureOf(Payload(VarintField(number, n) + rest), keys, values) == FeatureOf(Payload(rest), keys, values)
    ensures number !in {1, 2, 3, 4, 5} ==> LayerOf(Payload(VarintField(number, n) + rest)) == LayerOf(Payload(rest))
    ensures number != 3 ==> TileOf(VarintField(number, n) + rest) == TileOf(rest)
  {
    var f, fields := Field(number, Number(n)), FieldsOf(rest).value;
    ReadVarintField(number, n, rest);
    FieldFirst(VarintField(number, n), f, rest, fields);
    if number !in {2, 3, 4} {
      FirstFeatureField(f, fields);
    }
    if number !in {1, 2, 3, 4, 5} {
      FirstLayerField(f, fields);
    }
  }

  lemma {:induction false} FirstFeatureField(f: Field, fields: seq<Field>)
    requires f.number !in {2, 3, 4}
    ensures forall parts :: FeatureFields(parts, [f] + fields) == FeatureFields(parts, fields)
  {
    assert ([f] + fields)[1..] == fields;
  }

  lemma {:induction false} FirstLayerField(f: Field, fields: seq<Field>)
    requires f.number !in {1, 2, 3, 4, 5}
    ensures forall parts :: LayerFields(parts, [f] + fields) == LayerFields(parts, fields)
  {
    assert ([f] + fields)[1..] == fields;
  }

  /** Tags and commands may come in pieces: two fields hold what one holds with the numbers
      of both. */
  lemma {:induction false} PiecesJoin(
      number: nat, a: Bytes, b: Bytes, whole: Bytes, parts: FeatureParts, fields: seq<Field>)
    requires number in {2, 4} && VarintsOf(a).Ok? && VarintsOf(b).Ok?
    requires VarintsOf(whole) == Ok(VarintsOf(a).value + VarintsOf(b).value)
    ensures FeatureFields(parts, [Field(number, Payload(a))] + ([Field(number, Payload(b))] + fields))
         == FeatureFields(parts, [Field(number, Payload(whole))] + fields)
  {
    var f, g, h := Field(number, Payload(a)), Field(number, Payload(b)), Field(number, Payload(whole));
    assert ([f] + ([g] + fields))[1..] == [g] + fields && ([g] + fields)[1..] == fields;
    assert ([h] + fields)[1..] == fields;
    var x, y := VarintsOf(a).value, VarintsOf(b).value;
    assert parts.tags + x + y == parts.tags + (x + y) && parts.commands + x + y == parts.commands + (x + y);
  }

  // ----- commands -----

  function CursorAfter(points: seq<Point>, cursor: Point): Point {
    if points == [] then cursor else points[|points| - 1]
  }

  /** What follows complete commands is drawn from where they ended. */
  lemma {:induction false} CommandsConcatenate(a: seq<nat>, b: seq<nat>, count: nat, cursor: Point)
    requires PointsOf(a, count, cursor).Ok?
    ensures var points := PointsOf(a, count, cursor).value;
            PointsOf(a + b, count, cursor) == After(points, PointsOf(b, 0, CursorAfter(points, cursor)))
    decreases |a|
  {
    if count > 0 {
      var next := (cursor.0 + ZigZag(a[0]), cursor.1 + ZigZag(a[1]));
      assert (a + b)[2..] == a[2..] + b;
      CommandsConcatenate(a[2..], b, count - 1, next);
      var rest := PointsOf(a[2..], count - 1, next).value;
      AfterPrepended(next, rest, PointsOf(b, 0, CursorAfter(rest, next)));
      assert CursorAfter([next] + rest, cursor) == CursorAfter(rest, next);
    } else if a == [] {
      assert a + b == b;
      AfterNothing<Point>([], PointsOf(b, 0, cursor));
    } else {
      assert (a + b)[1..] == a[1..] + b;
      CommandsConcatenate(a[1..], b, if a[0] % 8 == CLOSE_PATH then 0 else a[0] / 8, cursor);
    }
  }

  /** After complete commands: closing a path draws nothing and moves nothing, an unknown
      command and a command with too few parameters leave the feature without
      coordinates. */
  lemma {:induction false} NextCommandMeans(a: seq<nat>, c: nat, b: seq<nat>)
    requires PointsOf(a, 0, (0, 0)).Ok?
    ensures c % 8 == 7 ==> CoordinatesOf(a + ([c] + b)) == CoordinatesOf(a + b)
    ensures c % 8 !in {1, 2, 7} ==> CoordinatesOf(a + ([c] + b)) == []
    ensures c % 8 in {1, 2} && |b| < 2 * (c / 8) ==> CoordinatesOf(a + ([c] + b)) == []
  {
    var points := PointsOf(a, 0, (0, 0)).value;
    var cursor := CursorAfter(points, (0, 0));
    CommandsConcatenate(a, [c] + b, 0, (0, 0));
    CommandsConcatenate(a, b, 0, (0, 0));
    assert ([c] + b)[1..] == b;
    if c % 8 in {1, 2} && |b| < 2 * (c / 8) {
      TooFewParameters(b, c / 8, cursor);
    }
  }

  lemma {:induction false} TooFewParameters(b: seq<nat>, count: nat, cursor: Point)
    requires |b| < 2 * count
    ensures PointsOf(b, count, cursor) == Err(TruncatedGeometry)
    decreases count
  {
    if |b| >= 2 {
      TooFewParameters(b[2..], count - 1, (cursor.0 + ZigZag(b[0]), cursor.1 + ZigZag(b[1])));
    }
  }

  // ----- properties -----

  /** The j-th pair of tags points at the key and into the values. */
  predicate Names(tags: seq<nat>, keys: seq<Bytes>, values: seq<Value>, j: nat, key: Bytes) {
    && 2 * j + 1 < |tags|
    && tags[2 * j] < |keys| && keys[tags[2 * j]] == key
    && tags[2 * j + 1] < |values|
  }

  lemma {:induction false} NamesBehind(tags: seq<nat>, keys: seq<Bytes>, values: seq<Value>, j: nat, key: Bytes)
    requires |tags| >= 2
    ensures Names(tags[2..], keys, values, j, key) == Names(tags, keys, values, j + 1, key)
  {
  }

  /** A property that some pair names has the value of the last pair that names it. */
  lemma {:induction false} LastPairDecides(
      tags: seq<nat>, keys: seq<Bytes>, values: seq<Value>, done: map<Bytes, Value>, j: nat, key: Bytes)
    requires Names(tags, keys, values, j, key)
    requires forall i: nat | i > j :: !Names(tags, keys, values, i, key)
    ensures var properties := PropertiesOf(tags, keys, values, done);
            key in properties && properties[key] == values[tags[2 * j + 1]]
    decreases |tags|
  {
    var next := WithTag(tags[0], tags[1], keys, values, done);
    forall i: nat
      ensures Names(tags[2..], keys, values, i, key) == Names(tags, keys, values, i + 1, key)
    {
      NamesBehind(tags, keys, values, i, key);
    }
    if j > 0 {
      LastPairDecides(tags[2..], keys, values, next, j - 1, key);
    } else {
      UnnamedStays(tags[2..], keys, values, next, key);
    }
  }

  /** A property that no pair names is as it was. */
  lemma {:induction false} UnnamedStays(
      tags: seq<nat>, keys: seq<Bytes>, values: seq<Value>, done: map<Bytes, Value>, key: Bytes)
    requires forall i: nat :: !Names(tags, keys, values, i, key)
    ensures var properties := PropertiesOf(tags, keys, values, done);
            (key in properties <==> key in done) && (key in done ==> properties[key] == done[key])
    decreases |tags|
  {
    if |tags| >= 2 {
      assert !Names(tags, keys, values, 0, key);
      forall i: nat
        ensures !Names(tags[2..], keys, values, i, key)
      {
        NamesBehind(tags, keys, values, i, key);
      }
      UnnamedStays(tags[2..], keys, values, WithTag(tags[0], tags[1], keys, values, done), key);
    }
  }

  // ----- the dictionaries of a layer -----

  lemma {:induction false} NoZeroMultiple(d: int, p: nat)
    requires p > 0 && d != 0
    ensures d * p != 0
  {}

  lemma {:induction false} WholeMultiples(i: int, j: int, p: nat)
    requires p > 0
    ensures i * p == j * p <==> i == j
  {
    assert (i - j) * p == i * p - j * p;
    if i != j {
      NoZeroMultiple(i - j, p);
    }
  }

  function Whole(negative: bool, n: nat): Value {
    Real(Finite(negative, n * ONE))
  }

  lemma {:induction false} WholeNumber(negative: bool, n: nat)
    ensures NumberIn(Whole(negative, n)) == Some((if negative then 0 - n else n) * ONE)
  {
    assert (0 - n) * ONE == -(n * ONE);
  }

  /** Whole numbers are equal across int, float and bool: 8 to 8.0, 0 to False and 0.0. */
  lemma {:induction false} WholeNumbersEqual(i: int, j: int, b: bool)
    ensures PyEq(Integer(i), Integer(j)) <==> i == j
    ensures PyEq(Boolean(b), Integer(i)) <==> i == if b then 1 else 0
  {
    var k := if b then 1 else 0;
    assert NumberIn(Boolean(b)) == Some(k * ONE);
    WholeMultiples(i, j, ONE);
    WholeMultiples(i, k, ONE);
  }

  lemma {:induction false} WholeFloatsEqual(i: int, negative: bool, n: nat)
    ensures PyEq(Integer(i), Whole(negative, n)) <==> if negative then i + n == 0 else i == n
  {
    WholeNumber(negative, n);
    WholeMultiples(i, if negative then 0 - n else n, ONE);
  }

  /** Floats are equal when they are the same, or zeros of either sign; text and bytes only
      to themselves. */
  lemma {:induction false} OthersEqual(f: PyFloat, g: PyFloat, v: Value, utf8: Bytes)
    ensures PyEq(Real(f), Real(g)) <==> f == g || (f.Finite? && g.Finite? && f.units == 0 && g.units == 0)
    ensures PyEq(Text(utf8), v) <==> v == Text(utf8)
    ensures PyEq(Blob(utf8), v) <==> v == Blob(utf8)
  {
  }

  ghost predicate NoDuplicates(d: Dictionaries) {
    && (forall i, j | 0 <= i < j < |d.keys| :: d.keys[i] != d.keys[j])
    && (forall i, j | 0 <= i < j < |d.values| :: !PyEq(d.values[i], d.values[j]))
  }

  lemma {:induction false} PropsWithoutDuplicates(d: Dictionaries, props: seq<(Bytes, Option<Value>)>)
    requires NoDuplicates(d)
    ensures NoDuplicates(InternProps(d, props).0)
    decreases |props|
  {
    if props != [] {
      if props[0].1.None? {
        PropsWithoutDuplicates(d, props[1..]);
      } else {
        OneWithoutDuplicates(d, props[0].0, props[0].1.value);
        PropsWithoutDuplicates(InternOne(d, props[0].0, props[0].1.value).0, props[1..]);
      }
    }
  }

  lemma {:induction false} OneWithoutDuplicates(d: Dictionaries, key: Bytes, v: Value)
    requires NoDuplicates(d)
    ensures NoDuplicates(InternOne(d, key, v).0)
  {
    var d' := InternOne(d, key, v).0;
    forall i, j | 0 <= i < j < |d'.keys|
      ensures d'.keys[i] != d'.keys[j]
    {
      assert j < |d.keys| || key !in d.keys;
    }
    forall i, j | 0 <= i < j < |d'.values|
      ensures !PyEq(d'.values[i], d'.values[j])
    {
      assert j < |d.values| || !Interned(d.values, v);
    }
  }

  /** No key is listed twice in a layer, and no value beside one that Python holds equal. */
  lemma {:induction false} LayerWithoutDuplicates(d: Dictionaries, features: seq<SourceFeature>)
    requires NoDuplicates(d) && forall k | 0 <= k < |features| :: EncodableFeature(features[k])
    ensures NoDuplicates(InternFeatures(d, features).0)
    decreases |features|
  {
    if features != [] {
      assert EncodableFeature(features[0]);
      PropsWithoutDuplicates(d, features[0].props);
      LayerWithoutDuplicates(InternProps(d, features[0].props).0, features[1..]);
    }
  }

  // ----- what can be written -----

  /** Text, booleans, ints from 0 and floats that a single does not overflow on. */
  lemma {:induction false} EncodableIff(utf8: Bytes, b: bool, i: int, f: PyFloat)
    ensures Encodable(Text(utf8)) && Encodable(Boolean(b)) && !Encodable(Absent) && !Encodable(Blob(utf8))
    ensures Encodable(Integer(i)) <==> i >= 0
    ensures Encodable(Real(f)) <==> !f.Finite? || f.units < 0x1FF_FFFF * Pow2(1177)
  {
    if f.Finite? {
      FitsBelow(f.units, 1177);
    }
  }

  /** The largest single and half a spacing, the first magnitude that overflows. */
  lemma {:induction false} FitsBelow(m: nat, n: nat)
    requires n == 1177
    ensures BitsFor(m) < INFINITY_BITS <==> m < 0x1FF_FFFF * Pow2(n)
  {
    var s := Spacing(m, FINEST);
    NearestBounds(m, s);
    LimitAround(n);
    if s < n + 1 {
      GrowsTo(s + 24, n + 24);
      SmallSpacing(s - FINEST, Nearest(m, Pow2(s)));
    } else if s == n + 1 {
      AtTheLimit(m, Pow2(n), Pow2(s));
    } else {
      GrowsTo(n + 25, s + 23);
      LargeSpacing(s - FINEST, Nearest(m, Pow2(s)));
    }
  }

  lemma {:induction false} LimitAround(n: nat)
    ensures Pow2(n + 1) == 2 * Pow2(n)
    ensures Pow2(n + 24) <= 0x1FF_FFFF * Pow2(n) < Pow2(n + 25)
  {
    TwentyFour();
    Doubles(n, 24);
    assert Pow2(n + 25) == 2 * Pow2(n + 24);
  }

  lemma {:induction false} SmallSpacing(e: nat, q: nat)
    requires e < 253 && q <= 2 * FRACTIONS
    ensures e * FRACTIONS + q < INFINITY_BITS
  {
  }

  lemma {:induction false} LargeSpacing(e: nat, q: nat)
    requires e > 253 && q >= FRACTIONS
    ensures e * FRACTIONS + q >= INFINITY_BITS
  {
  }

  lemma {:induction false} AtTheLimit(m: nat, half: nat, p: nat)
    requires half > 0 && p == 2 * half
    ensures 253 * FRACTIONS + Nearest(m, p) < INFINITY_BITS <==> m < 0x1FF_FFFF * half
  {
    var q, r := m / p, m % p;
    assert m == q * p + r;
    assert q * p == 2 * q * half;
    if q < 0xFF_FFFF {
      Products(2 * q + 2, 0x1FF_FFFE, half);
      assert (2 * q + 2) * half == q * p + p;
    } else if q > 0xFF_FFFF {
      Products(0x1FF_FFFF, 2 * q, half);
    } else {
      assert 0x1FF_FFFE * half + half == 0x1FF_FFFF * half;
    }
  }

  /** Every NaN is written as 00 00 C0 7F. */
  lemma {:induction false} NaNBytes()
    ensures PackSingle(NotANumber) == [0x00, 0x00, 0xC0, 0x7F]
  {
    LittleNext(0x7FC0_0000, 3);
    LittleNext(0x7F_C000, 2);
    LittleNext(0x7FC0, 1);
    LittleNext(0x7F, 0);
  }

  /** An infinity is written as 00 00 80 7F or 00 00 80 FF. */
  lemma {:induction false} InfinityBytes()
    ensures PackSingle(Infinite(false)) == [0x00, 0x00, 0x80, 0x7F]
    ensures PackSingle(Infinite(true)) == [0x00, 0x00, 0x80, 0xFF]
  {
    LittleNext(0x7F80_0000, 3);
    LittleNext(0x7F_8000, 2);
    LittleNext(0x7F80, 1);
    LittleNext(0x7F, 0);
    LittleNext(0xFF80_0000, 3);
    LittleNext(0xFF_8000, 2);
    LittleNext(0xFF80, 1);
    LittleNext(0xFF, 0);
  }

  lemma {:induction false} LittleNext(n: nat, size: nat)
    ensures Little(n, size + 1) == [n % 256] + Little(n / 256, size)
  {}
}
