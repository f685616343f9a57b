/** Vector tiles down to integer pixels: `_decode_value`, `_decode_geometry` and
    `decode_tile` in `core/mvt.py` (Vector Tile Specification 2.1, sections 4.1 and
    4.3). Text is kept as its UTF-8 bytes. Every function here says what a call
    returns; the methods compute it as the source does. */
module Tiles {
  import opened Varints
  import opened BinaryFloats
  import opened Wire

  // ----- Tile.Value -----

  /** A Python value of a property: str, int, float, bool, bytes or None. */
  datatype Value =
    | Text(utf8: Bytes)
    | Integer(i: int)
    | Real(f: PyFloat)
    | Boolean(b: bool)
    | Blob(bytes: Bytes)
    | Absent

  /** Python truth of a decoded field: a zero of either sign and an empty payload are
      false. */
  predicate Truthy(v: FieldValue) {
    match v
    case Number(n) => n != 0
    case Payload(bytes) => bytes != []
    case Float(f) => !f.Finite? || f.units != 0
  }

  predicate IsValueField(f: Field) {
    1 <= f.number <= 7
  }

  function AsYielded(v: FieldValue): Value {
    match v
    case Number(n) => Integer(n)
    case Payload(bytes) => Blob(bytes)
    case Float(f) => Real(f)
  }

  function ValueIn(f: Field): Result<Value>
    requires IsValueField(f)
  {
    if f.number == 1 then
      if f.value.Payload? then Ok(Text(f.value.bytes)) else Err(WrongType)
    else if f.number <= 5 then Ok(AsYielded(f.value))
    else if f.number == 6 then
      if f.value.Number? then Ok(Integer(ZigZag(f.value.n))) else Err(WrongType)
    else Ok(Boolean(Truthy(f.value)))
  }

  /** The first of the seven value fields decides; nothing after it is looked at. */
  function ValueOf(buf: Bytes): Result<Value> {
    if buf == [] then Ok(Absent)
    else
      match NextField(buf)
      case Err(e) => Err(e)
      case Ok((f, n)) => if IsValueField(f) then ValueIn(f) else ValueOf(buf[n..])
  }

  method DecodeValue(buf: Bytes) returns (r: Result<Value>)
    ensures r == ValueOf(buf)
  {
    var pos: nat := 0;
    assert buf[0..] == buf;
    while pos < |buf|
      invariant pos <= |buf|
      invariant ValueOf(buf) == ValueOf(buf[pos..])
    {
      ghost var rest := buf[pos..];
      var read := ReadField(buf, pos);
      if read.Err? {
        return Err(read.error);
      }
      var (field, next) := read.value;
      if IsValueField(field) {
        return ValueIn(field);
      }
      assert rest[next - pos..] == buf[next..];
      pos := next;
    }
    return Ok(Absent);
  }

  // ----- geometry -----

  type Point = (int, int)

  const MOVE_TO := 1
  const LINE_TO := 2
  const CLOSE_PATH := 7

  /** The points a command stream still draws, with `count` parameter pairs of the
      current command left and the cursor where the last one put it. */
  function PointsOf(commands: seq<nat>, count: nat, cursor: Point): Result<seq<Point>>
    decreases |commands|
  {
    if count > 0 then
      if |commands| < 2 then Err(TruncatedGeometry)
      else
        var next := (cursor.0 + ZigZag(commands[0]), cursor.1 + ZigZag(commands[1]));
        Prepend(next, PointsOf(commands[2..], count - 1, next))
    else if commands == [] then Ok([])
    else if commands[0] % 8 == CLOSE_PATH then PointsOf(commands[1..], 0, cursor)
    else if commands[0] % 8 != MOVE_TO && commands[0] % 8 != LINE_TO then Err(UnknownCommand)
    else PointsOf(commands[1..], commands[0] / 8, cursor)
  }

  /** The parameter pairs of one command: the inner loop of `_decode_geometry`. */
  method DrawPoints(commands: seq<nat>, start: nat, count: nat, cursor: Point)
      returns (r: Result<(seq<Point>, nat, Point)>)
    requires start <= |commands|
    ensures r.Err? ==> PointsOf(commands[start..], count, cursor) == Err(r.error)
    ensures r.Ok? ==>
      var (points, index, last) := r.value;
      && start <= index <= |commands|
      && PointsOf(commands[start..], count, cursor) == After(points, PointsOf(commands[index..], 0, last))
  {
    var points: seq<Point>, index: nat, x, y := [], start, cursor.0, cursor.1;
    AfterNothing(points, PointsOf(commands[start..], count, cursor));
    for i := 0 to count
      invariant start <= index <= |commands|
      invariant PointsOf(commands[start..], count, cursor)
             == After(points, PointsOf(commands[index..], count - i, (x, y)))
    {
      if index + 1 >= |commands| {
        return Err(TruncatedGeometry);
      }
      ghost var rest := commands[index..];
      x := x + ZigZag(commands[index]);
      y := y + ZigZag(commands[index + 1]);
      index := index + 2;
      assert rest[2..] == commands[index..];
      AfterNext(points, (x, y), PointsOf(commands[index..], count - i - 1, (x, y)));
      points := points + [(x, y)];
    }
    return Ok((points, index, (x, y)));
  }

  method DecodeGeometry(commands: seq<nat>) returns (r: Result<seq<Point>>)
    ensures r == PointsOf(commands, 0, (0, 0))
  {
    var coords: seq<Point>, cursor: Point, index: nat := [], (0, 0), 0;
    AfterNothing(coords, PointsOf(commands, 0, (0, 0)));
    assert commands[0..] == commands;
    while index < |commands|
      invariant index <= |commands|
      invariant PointsOf(commands, 0, (0, 0)) == After(coords, PointsOf(commands[index..], 0, cursor))
      decreases |commands| - index
    {
      var command := commands[index];
      assert commands[index..][1..] == commands[index + 1..];
      index := index + 1;
      if command % 8 == CLOSE_PATH {
        continue;
      }
      if command % 8 != MOVE_TO && command % 8 != LINE_TO {
        return Err(UnknownCommand);
      }
      var drawn := DrawPoints(commands, index, command / 8, cursor);
      if drawn.Err? {
        return Err(drawn.error);
      }
      ghost var before := coords;
      coords, index, cursor := coords + drawn.value.0, drawn.value.1, drawn.value.2;
      AfterTwice(before, drawn.value.0, PointsOf(commands[index..], 0, cursor));
    }
    AfterNothing(coords, PointsOf([], 0, cursor));
    return Ok(coords);
  }

  lemma {:induction false} AfterTwice<T>(a: seq<T>, b: seq<T>, r: Result<seq<T>>)
    ensures After(a, After(b, r)) == After(a + b, r)
  {
    if r.Ok? {
      assert a + (b + r.value) == (a + b) + r.value;
    }
  }

  // ----- features -----

  datatype GeometryType = Unknown | PointType | LineStringType | PolygonType

  /** Dictionary lookup of a decoded type: a float equal to a key finds it as well. */
  function GeometryTypeOf(v: FieldValue): GeometryType {
    if IsKey(v, 1) then PointType
    else if IsKey(v, 2) then LineStringType
    else if IsKey(v, 3) then PolygonType
    else Unknown
  }

  predicate IsKey(v: FieldValue, key: nat) {
    v == Number(key) || v == Float(Finite(false, key * ONE))
  }

  datatype TileFeature = TileFeature(
    geometryType: GeometryType, coordinates: seq<Point>, properties: map<Bytes, Value>)

  datatype FeatureParts = FeatureParts(tags: seq<nat>, geometryType: GeometryType, commands: seq<nat>)

  /** The varints packed into a field that has to be a payload. */
  function Unpacked(v: FieldValue): Result<seq<nat>> {
    if v.Payload? then VarintsOf(v.bytes) else Err(WrongType)
  }

  function AddToFeature(parts: FeatureParts, f: Field): Result<FeatureParts> {
    if f.number == 2 then
      match Unpacked(f.value)
      case Err(e) => Err(e)
      case Ok(vs) => Ok(parts.(tags := parts.tags + vs))
    else if f.number == 3 then Ok(parts.(geometryType := GeometryTypeOf(f.value)))
    else if f.number == 4 then
      match Unpacked(f.value)
      case Err(e) => Err(e)
      case Ok(vs) => Ok(parts.(commands := parts.commands + vs))
    else Ok(parts)
  }

  function FeatureFields(parts: FeatureParts, fields: seq<Field>): Result<FeatureParts>
    decreases |fields|
  {
    if fields == [] then Ok(parts)
    else
      match AddToFeature(parts, fields[0])
      case Err(e) => Err(e)
      case Ok(next) => FeatureFields(next, fields[1..])
  }

  /** Tags are index pairs into the layer's dictionaries; a pair that points nowhere
      and a last tag without a partner are skipped. */
  function PropertiesOf(
      tags: seq<nat>, keys: seq<Bytes>, values: seq<Value>, done: map<Bytes, Value>): map<Bytes, Value>
    decreases |tags|
  {
    if |tags| < 2 then done
    else PropertiesOf(tags[2..], keys, values, WithTag(tags[0], tags[1], keys, values, done))
  }

  function WithTag(
      key: nat, value: nat, keys: seq<Bytes>, values: seq<Value>, done: map<Bytes, Value>): map<Bytes, Value>
  {
    if key < |keys| && value < |values| then done[keys[key] := values[value]] else done
  }

  /** Geometry that does not decode leaves a feature without coordinates. */
  function CoordinatesOf(commands: seq<nat>): seq<Point> {
    match PointsOf(commands, 0, (0, 0))
    case Ok(points) => points
    case Err(_) => []
  }

  function FeatureOf(raw: FieldValue, keys: seq<Bytes>, values: seq<Value>): Result<TileFeature> {
    if !raw.Payload? then Err(WrongType)
    else
      match FieldsOf(raw.bytes)
      case Err(e) => Err(e)
      case Ok(fields) =>
        match FeatureFields(FeatureParts([], Unknown, []), fields)
        case Err(e) => Err(e)
        case Ok(parts) =>
          Ok(TileFeature(
               parts.geometryType, CoordinatesOf(parts.commands), PropertiesOf(parts.tags, keys, values, map[])))
  }

  method DecodeFeature(raw: FieldValue, keys: seq<Bytes>, values: seq<Value>) returns (r: Result<TileFeature>)
    ensures r == FeatureOf(raw, keys, values)
  {
    if !raw.Payload? {
      return Err(WrongType);
    }
    var read := IterFields(raw.bytes);
    if read.Err? {
      return Err(read.error);
    }
    var fields := read.value;
    var parts := FeatureParts([], Unknown, []);
    assert fields[0..] == fields;
    for k := 0 to |fields|
      invariant FeatureFields(FeatureParts([], Unknown, []), fields) == FeatureFields(parts, fields[k..])
    {
      assert fields[k..][1..] == fields[k + 1..];
      var f := fields[k];
      if (f.number == 2 || f.number == 4) && f.value.Payload? {
        var unpacked := UnpackVarints(f.value.bytes);
        if unpacked.Err? {
          return Err(unpacked.error);
        }
        parts := if f.number == 2 then parts.(tags := parts.tags + unpacked.value)
                 else parts.(commands := parts.commands + unpacked.value);
      } else if f.number == 2 || f.number == 4 {
        return Err(WrongType);
      } else if f.number == 3 {
        parts := parts.(geometryType := GeometryTypeOf(f.value));
      }
    }
    var properties: map<Bytes, Value> := map[];
    var i := 0;
    assert parts.tags[0..] == parts.tags;
    while i + 1 < |parts.tags|
      invariant 0 <= i <= |parts.tags|
      invariant PropertiesOf(parts.tags, keys, values, map[]) == PropertiesOf(parts.tags[i..], keys, values, properties)
    {
      var keyIndex, valueIndex := parts.tags[i], parts.tags[i + 1];
      assert parts.tags[i..][2..] == parts.tags[i + 2..];
      if keyIndex < |keys| && valueIndex < |values| {
        properties := properties[keys[keyIndex] := values[valueIndex]];
      }
      i := i + 2;
    }
    var geometry := DecodeGeometry(parts.commands);
    return Ok(TileFeature(parts.geometryType, if geometry.Ok? then geometry.value else [], properties));
  }

  // ----- layers -----

  const DEFAULT_EXTENT := 4096

  datatype TileLayer = TileLayer(name: Bytes, extent: FieldValue, features: seq<TileFeature>)

  datatype LayerParts = LayerParts(
    name: Bytes, extent: FieldValue, keys: seq<Bytes>, values: seq<Value>, rawFeatures: seq<FieldValue>)

  const EMPTY_PARTS := LayerParts([], Number(DEFAULT_EXTENT), [], [], [])

  function AddToLayer(parts: LayerParts, f: Field): Result<LayerParts> {
    if f.number == 1 then
      if f.value.Payload? then Ok(parts.(name := f.value.bytes)) else Err(WrongType)
    else if f.number == 2 then Ok(parts.(rawFeatures := parts.rawFeatures + [f.value]))
    else if f.number == 3 then
      if f.value.Payload? then Ok(parts.(keys := parts.keys + [f.value.bytes])) else Err(WrongType)
    else if f.number == 4 then
      if f.value.Payload? then
        match ValueOf(f.value.bytes)
        case Err(e) => Err(e)
        case Ok(v) => Ok(parts.(values := parts.values + [v]))
      else Err(WrongType)
    else if f.number == 5 then
      Ok(parts.(extent := if Truthy(f.value) then f.value else Number(DEFAULT_EXTENT)))
    else Ok(parts)
  }

  function LayerFields(parts: LayerParts, fields: seq<Field>): Result<LayerParts>
    decreases |fields|
  {
    if fields == [] then Ok(parts)
    else
      match AddToLayer(parts, fields[0])
      case Err(e) => Err(e)
      case Ok(next) => LayerFields(next, fields[1..])
  }

  function FeaturesOf(raws: seq<FieldValue>, keys: seq<Bytes>, values: seq<Value>): Result<seq<TileFeature>> {
    if raws == [] then Ok([])
    else
      match FeatureOf(raws[0], keys, values)
      case Err(e) => Err(e)
      case Ok(f) => Prepend(f, FeaturesOf(raws[1..], keys, values))
  }

  function Assembled(parts: LayerParts): Result<TileLayer> {
    match FeaturesOf(parts.rawFeatures, parts.keys, parts.values)
    case Err(e) => Err(e)
    case Ok(features) => Ok(TileLayer(parts.name, parts.extent, features))
  }

  function LayerOfFields(fields: seq<Field>): Result<TileLayer> {
    match LayerFields(EMPTY_PARTS, fields)
    case Err(e) => Err(e)
    case Ok(parts) => Assembled(parts)
  }

  function LayerOf(raw: FieldValue): Result<TileLayer> {
    if !raw.Payload? then Err(WrongType)
    else
      match FieldsOf(raw.bytes)
      case Err(e) => Err(e)
      case Ok(fields) => LayerOfFields(fields)
  }

  method AddField(parts: LayerParts, f: Field) returns (r: Result<LayerParts>)
    ensures r == AddToLayer(parts, f)
  {
    if f.number == 4 && f.value.Payload? {
      var value := DecodeValue(f.value.bytes);
      if value.Err? {
        return Err(value.error);
      }
      return Ok(parts.(values := parts.values + [value.value]));
    } else {
      return AddToLayer(parts, f);
    }
  }

  method DecodeLayer(raw: FieldValue) returns (r: Result<TileLayer>)
    ensures r == LayerOf(raw)
  {
    if !raw.Payload? {
      return Err(WrongType);
    }
    var read := IterFields(raw.bytes);
    if read.Err? {
      return Err(read.error);
    }
    var fields := read.value;
    var parts := EMPTY_PARTS;
    assert fields[0..] == fields;
    for k := 0 to |fields|
      invariant LayerFields(EMPTY_PARTS, fields) == LayerFields(parts, fields[k..])
    {
      assert fields[k..][1..] == fields[k + 1..];
      var next := AddField(parts, fields[k]);
      if next.Err? {
        return Err(next.error);
      }
      parts := next.value;
    }
    var features: seq<TileFeature> := [];
    var raws := parts.rawFeatures;
    AfterNothing(features, FeaturesOf(raws, parts.keys, parts.values));
    assert raws[0..] == raws;
    for k := 0 to |raws|
      invariant FeaturesOf(raws, parts.keys, parts.values)
             == After(features, FeaturesOf(raws[k..], parts.keys, parts.values))
    {
      assert raws[k..][1..] == raws[k + 1..];
      var feature := DecodeFeature(raws[k], parts.keys, parts.values);
      if feature.Err? {
        return Err(feature.error);
      }
      AfterNext(features, feature.value, FeaturesOf(raws[k + 1..], parts.keys, parts.values));
      features := features + [feature.value];
    }
    AfterNothing(features, FeaturesOf([], parts.keys, parts.values));
    return Ok(TileLayer(parts.name, parts.extent, features));
  }

  // ----- tiles -----

  type Layers = map<Bytes, TileLayer>

  /** Layers by name: a later layer of the same name replaces an earlier one. */
  function TileFields(layers: Layers, fields: seq<Field>): Result<Layers>
    decreases |fields|
  {
    if fields == [] then Ok(layers)
    else if fields[0].number != 3 then TileFields(layers, fields[1..])
    else
      match LayerOf(fields[0].value)
      case Err(e) => Err(e)
      case Ok(layer) => TileFields(layers[layer.name := layer], fields[1..])
  }

  function TileOf(raw: Bytes): Result<Layers> {
    match FieldsOf(raw)
    case Err(e) => Err(e)
    case Ok(fields) => TileFields(map[], fields)
  }

  method DecodeTile(raw: Bytes) returns (r: Result<Layers>)
    ensures r == TileOf(raw)
  {
    var read := IterFields(raw);
    if read.Err? {
      return Err(read.error);
    }
    var fields := read.value;
    var layers: Layers := map[];
    assert fields[0..] == fields;
    for k := 0 to |fields|
      invariant TileFields(map[], fields) == TileFields(layers, fields[k..])
    {
      assert fields[k..][1..] == fields[k + 1..];
      if fields[k].number != 3 {
        continue;
      }
      var layer := DecodeLayer(fields[k].value);
      if layer.Err? {
        return Err(layer.error);
      }
      layers := layers[layer.value.name := layer.value];
    }
    return Ok(layers);
  }
}
