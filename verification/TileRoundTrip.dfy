/** Decoding what the encoder writes (`scripts/make-synthetic-fixtures.py:622-781`
    against `core/mvt.py`): the same layers come back, except that values which Python
    holds equal share the first one's slot and that floats are narrowed to singles. */
module TileRoundTrip {
  import opened Wrappers
  import opened Varints
  import opened BinaryFloats
  import opened Wire
  import opened Tiles
  import opened TileEncoder

  // ----- framing -----

  predicate FieldFits(f: Field) {
    && f.number * 8 + 7 < VARINT_LIMIT
    && match f.value
       case Number(n) => n < VARINT_LIMIT
       case Payload(bytes) => |bytes| < VARINT_LIMIT
       case Float(_) => false
  }

  lemma {:induction false} WrittenFieldsRead(fields: seq<Field>)
    requires forall k | 0 <= k < |fields| :: FieldFits(fields[k])
    ensures FieldsOf(WriteFields(fields)) == Ok(fields)
    decreases |fields|
  {
    if fields != [] {
      var f, rest := fields[0], WriteFields(fields[1..]);
      assert FieldFits(f);
      match f.value {
        case Payload(bytes) => ReadBytesField(f.number, bytes, rest);
        case Number(n) => ReadVarintField(f.number, n, rest);
      }
      WalkField(WriteField(f), f, rest);
      WrittenFieldsRead(fields[1..]);
      assert fields == [f] + fields[1..];
    }
  }

  // ----- values -----

  predicate ValueFits(v: Value) {
    && Encodable(v)
    && (v.Text? ==> |v.utf8| < VARINT_LIMIT)
    && (v.Integer? ==> v.i < VARINT_LIMIT)
  }

  /** A value as it is once written: floats are singles on the wire. */
  function Narrowed(v: Value): Value {
    if v.Real? then Real(Narrow(v.f)) else v
  }

  function ValueFieldOf(v: Value): Field
    requires Encodable(v)
  {
    match v
    case Boolean(b) => Field(7, Number(if b then 1 else 0))
    case Real(f) => Field(2, Float(Narrow(f)))
    case Integer(i) => Field(4, Number(i))
    case Text(utf8) => Field(1, Payload(utf8))
  }

  lemma {:induction false} ValueFieldRead(v: Value)
    requires ValueFits(v)
    ensures NextField(ValueBytes(v) + []) == Ok((ValueFieldOf(v), |ValueBytes(v)|)) && ValueBytes(v) != []
  {
    match v {
      case Boolean(b) => ReadVarintField(7, if b then 1 else 0, []);
      case Real(f) =>
        ReadFloatField(2, PackSingle(f), []);
        SingleRoundTrip(f);
      case Integer(i) => ReadVarintField(4, i, []);
      case Text(utf8) => ReadBytesField(1, utf8, []);
    }
  }

  /** Every value comes back as it was, floats narrowed. */
  lemma {:induction false} ValueRoundTrip(v: Value)
    requires ValueFits(v)
    ensures ValueOf(ValueBytes(v)) == Ok(Narrowed(v))
  {
    ValueFieldRead(v);
    assert ValueBytes(v) + [] == ValueBytes(v);
    assert ValueIn(ValueFieldOf(v)) == Ok(Narrowed(v)) by {
      assert v.Boolean? ==> Truthy(ValueFieldOf(v).value) == v.b;
    }
  }

  // ----- geometry -----

  lemma {:induction false} DeltasDraw(points: seq<Point>, cursor: Point, rest: seq<nat>)
    ensures var last := if points == [] then cursor else points[|points| - 1];
            PointsOf(Deltas(points, cursor) + rest, |points|, cursor) == After(points, PointsOf(rest, 0, last))
    decreases |points|
  {
    if points == [] {
      assert Deltas(points, cursor) + rest == rest;
      AfterNothing(points, PointsOf(rest, 0, cursor));
    } else {
      var p := points[0];
      ZigZagInverse(p.0 - cursor.0, 0);
      ZigZagInverse(p.1 - cursor.1, 0);
      var commands := Deltas(points, cursor) + rest;
      assert commands[2..] == Deltas(points[1..], p) + rest;
      DeltasDraw(points[1..], p, rest);
      var last := points[|points| - 1];
      AfterPrepended(p, points[1..], PointsOf(rest, 0, last));
      assert points == [p] + points[1..];
    }
  }

  lemma {:induction false} LineTail(points: seq<Point>, cursor: Point)
    requires points != []
    ensures PointsOf([|points| * 8 + LINE_TO] + Deltas(points, cursor), 0, cursor) == Ok(points)
  {
    var commands := [|points| * 8 + LINE_TO] + Deltas(points, cursor);
    assert commands[1..] == Deltas(points, cursor) + [];
    DeltasDraw(points, cursor, []);
    AfterNothing(points, PointsOf([], 0, points[|points| - 1]));
  }

  lemma {:induction false} LineHead(points: seq<Point>, tail: seq<nat>)
    requires points != []
    ensures PointsOf([8 + MOVE_TO] + Deltas(points[..1], (0, 0)) + tail, 0, (0, 0))
         == After(points[..1], PointsOf(tail, 0, points[0]))
  {
    var commands := [8 + MOVE_TO] + Deltas(points[..1], (0, 0)) + tail;
    assert commands[1..] == Deltas(points[..1], (0, 0)) + tail;
    DeltasDraw(points[..1], (0, 0), tail);
  }

  /** A written line draws its own pixels. */
  lemma {:induction false} GeometryRoundTrip(points: seq<Point>)
    requires points != []
    ensures PointsOf(CommandsFor(points), 0, (0, 0)) == Ok(points)
  {
    if |points| > 1 {
      var tail := [(|points| - 1) * 8 + LINE_TO] + Deltas(points[1..], points[0]);
      LineHead(points, tail);
      LineTail(points[1..], points[0]);
      assert points == points[..1] + points[1..];
    } else {
      LineHead(points, []);
      AfterNothing(points[..1], PointsOf([], 0, points[0]));
      assert points == points[..1];
    }
  }

  // ----- one feature -----

  predicate AllFit(vs: seq<nat>) {
    forall k | 0 <= k < |vs| :: vs[k] < VARINT_LIMIT
  }

  predicate BodyFits(tags: seq<nat>, line: seq<Point>)
    requires line != []
  {
    && AllFit(tags) && AllFit(CommandsFor(line))
    && |PackVarints(tags)| < VARINT_LIMIT && |PackVarints(CommandsFor(line))| < VARINT_LIMIT
  }

  /** The three fields of a feature message. */
  function FeatureMessage(tags: Bytes, commands: Bytes): seq<Field> {
    [Field(2, Payload(tags)), Field(3, Number(2)), Field(4, Payload(commands))]
  }

  lemma {:induction false} BodyFields(tags: Bytes, commands: Bytes)
    requires |tags| < VARINT_LIMIT && |commands| < VARINT_LIMIT
    ensures FieldsOf(BytesField(2, tags) + VarintField(3, 2) + BytesField(4, commands))
         == Ok(FeatureMessage(tags, commands))
  {
    var a, b, c := Field(2, Payload(tags)), Field(3, Number(2)), Field(4, Payload(commands));
    WrittenFieldsRead([a, b, c]);
    WriteOneMore([a, b], c);
    WriteOneMore([a], b);
    WriteOneMore([], a);
    assert [a, b] + [c] == [a, b, c] && [a] + [b] == [a, b] && [] + [a] == [a];
    assert WriteFields([]) + WriteField(a) == WriteField(a);
  }

  lemma {:induction false} FeatureMessageParts(tags: Bytes, commands: Bytes, ts: seq<nat>, cs: seq<nat>)
    requires VarintsOf(tags) == Ok(ts) && VarintsOf(commands) == Ok(cs)
    ensures FeatureFields(FeatureParts([], Unknown, []), FeatureMessage(tags, commands))
         == Ok(FeatureParts(ts, LineStringType, cs))
  {
    var m := FeatureMessage(tags, commands);
    assert m[1..] == [m[1], m[2]] && [m[1], m[2]][1..] == [m[2]] && [m[2]][1..] == [];
    assert [] + ts == ts && [] + cs == cs;
    var p0, p1 := FeatureParts([], Unknown, []), FeatureParts(ts, Unknown, []);
    var p2, p3 := FeatureParts(ts, LineStringType, []), FeatureParts(ts, LineStringType, cs);
    assert AddToFeature(p0, m[0]) == Ok(p1) && AddToFeature(p1, m[1]) == Ok(p2) && AddToFeature(p2, m[2]) == Ok(p3);
    assert FeatureFields(p2, [m[2]]) == FeatureFields(p3, []);
    assert FeatureFields(p1, [m[1], m[2]]) == FeatureFields(p2, [m[2]]);
    assert FeatureFields(p0, m) == FeatureFields(p1, [m[1], m[2]]);
  }

  lemma {:induction false} FeatureRoundTrip(tags: seq<nat>, line: seq<Point>, keys: seq<Bytes>, values: seq<Value>)
    requires line != [] && BodyFits(tags, line)
    ensures FeatureOf(Payload(FeatureBytes(tags, line)), keys, values)
         == Ok(TileFeature(LineStringType, line, PropertiesOf(tags, keys, values, map[])))
  {
    var commands := CommandsFor(line);
    GeometryRoundTrip(line);
    PackedRoundTrip(tags);
    PackedRoundTrip(commands);
    BodyFields(PackVarints(tags), PackVarints(commands));
    FeatureMessageParts(PackVarints(tags), PackVarints(commands), tags, commands);
  }

  // ----- dictionaries -----

  predicate Extends(d: Dictionaries, d': Dictionaries) {
    d.keys <= d'.keys && d.values <= d'.values
  }

  /** The first interned value that Python holds equal. */
  function Represented(values: seq<Value>, v: Value): Value
    requires Interned(values, v)
  {
    values[ValueIndex(values, v)]
  }

  /** What the decoder finds in a value's slot. */
  function ReadBack(values: seq<Value>, v: Value): Value
    requires Interned(values, v)
  {
    Narrowed(Represented(values, v))
  }

  function NarrowedAll(values: seq<Value>): (r: seq<Value>)
    ensures |r| == |values|
  {
    seq(|values|, k requires 0 <= k < |values| => Narrowed(values[k]))
  }

  lemma {:induction false} IndexSurvives(values: seq<Value>, values': seq<Value>, v: Value)
    requires Interned(values, v) && values <= values'
    ensures Interned(values', v) && ValueIndex(values', v) == ValueIndex(values, v)
  {
    var i := ValueIndex(values, v);
    assert PyEq(values'[i], v);
    assert forall k | 0 <= k < |values| :: values'[k] == values[k];
  }

  lemma {:induction false} InterningGrows(d: Dictionaries, props: seq<(Bytes, Option<Value>)>)
    ensures Extends(d, InternProps(d, props).0)
    decreases |props|
  {
    if props != [] {
      var d' := if props[0].1.None? then d else InternOne(d, props[0].0, props[0].1.value).0;
      InterningGrows(d', props[1..]);
    }
  }

  predicate AllInterned(values: seq<Value>, props: seq<(Bytes, Option<Value>)>) {
    forall k | 0 <= k < |props| && props[k].1.Some? :: Interned(values, props[k].1.value)
  }

  /** A feature's properties, each value replaced by the one read back for it. */
  function Properties(props: seq<(Bytes, Option<Value>)>, values: seq<Value>, done: map<Bytes, Value>)
      : map<Bytes, Value>
    requires AllInterned(values, props)
    decreases |props|
  {
    if props == [] then done
    else
      assert forall k | 0 < k < |props| :: props[k] == props[1..][k - 1];
      Properties(props[1..], values,
        if props[0].1.None? then done
        else (assert Interned(values, props[0].1.value);
              done[props[0].0 := ReadBack(values, props[0].1.value)]))
  }

  /** The first two tags set the property they were written for. */
  lemma {:induction false} TagResolves(
      d: Dictionaries, key: Bytes, v: Value, final: Dictionaries, tags: seq<nat>, done: map<Bytes, Value>)
    requires key in d.keys && Interned(d.values, v) && d.keys <= final.keys && Interned(final.values, v)
    requires ValueIndex(d.values, v) == ValueIndex(final.values, v)
    ensures PropertiesOf([KeyIndex(d.keys, key), ValueIndex(d.values, v)] + tags,
                         final.keys, NarrowedAll(final.values), done)
         == PropertiesOf(tags, final.keys, NarrowedAll(final.values), done[key := ReadBack(final.values, v)])
  {
    var all := [KeyIndex(d.keys, key), ValueIndex(d.values, v)] + tags;
    assert all[2..] == tags;
    assert final.keys[KeyIndex(d.keys, key)] == key;
  }

  lemma {:induction false} TagsResolve(
      d: Dictionaries, props: seq<(Bytes, Option<Value>)>, final: Dictionaries, done: map<Bytes, Value>)
    requires Extends(InternProps(d, props).0, final)
    ensures AllInterned(final.values, props)
    ensures PropertiesOf(InternProps(d, props).1, final.keys, NarrowedAll(final.values), done)
         == Properties(props, final.values, done)
    decreases |props|
  {
    if props != [] {
      var rest := props[1..];
      assert forall k | 0 < k < |props| :: props[k] == rest[k - 1];
      if props[0].1.None? {
        TagsResolve(d, rest, final, done);
      } else {
        var (key, v) := (props[0].0, props[0].1.value);
        var (d', tag) := InternOne(d, key, v);
        InterningGrows(d', rest);
        assert d'.keys <= final.keys && d'.values <= final.values;
        IndexSurvives(d'.values, final.values, v);
        TagResolves(d', key, v, final, InternProps(d', rest).1, done);
        TagsResolve(d', rest, final, done[key := ReadBack(final.values, v)]);
      }
    }
  }

  // ----- all features -----

  predicate FeaturesInterned(values: seq<Value>, features: seq<SourceFeature>) {
    forall k | 0 <= k < |features| :: AllInterned(values, features[k].props)
  }

  function Expected(features: seq<SourceFeature>, values: seq<Value>): (r: seq<TileFeature>)
    requires FeaturesInterned(values, features)
    ensures |r| == |features|
  {
    seq(|features|, k requires 0 <= k < |features| =>
      TileFeature(LineStringType, features[k].line, Properties(features[k].props, values, map[])))
  }

  predicate BodiesFit(d: Dictionaries, features: seq<SourceFeature>)
    requires forall k | 0 <= k < |features| :: EncodableFeature(features[k])
    decreases |features|
  {
    if features == [] then true
    else
      assert EncodableFeature(features[0]);
      var (d', tags) := InternProps(d, features[0].props);
      BodyFits(tags, features[0].line) && BodiesFit(d', features[1..])
  }

  lemma {:induction false} FeaturesGrow(d: Dictionaries, features: seq<SourceFeature>)
    requires forall k | 0 <= k < |features| :: EncodableFeature(features[k])
    ensures Extends(d, InternFeatures(d, features).0)
    decreases |features|
  {
    if features != [] {
      InterningGrows(d, features[0].props);
      FeaturesGrow(InternProps(d, features[0].props).0, features[1..]);
    }
  }

  function AsPayloads(bodies: seq<Bytes>): (r: seq<FieldValue>)
    ensures |r| == |bodies|
  {
    seq(|bodies|, k requires 0 <= k < |bodies| => Payload(bodies[k]))
  }

  function ExpectedOne(f: SourceFeature, values: seq<Value>): TileFeature
    requires AllInterned(values, f.props)
  {
    TileFeature(LineStringType, f.line, Properties(f.props, values, map[]))
  }

  lemma {:induction false} OneFeatureRoundTrip(d: Dictionaries, f: SourceFeature, final: Dictionaries)
    requires f.line != [] && BodyFits(InternProps(d, f.props).1, f.line)
    requires Extends(InternProps(d, f.props).0, final)
    ensures AllInterned(final.values, f.props)
    ensures FeatureOf(Payload(FeatureBytes(InternProps(d, f.props).1, f.line)), final.keys, NarrowedAll(final.values))
         == Ok(ExpectedOne(f, final.values))
  {
    TagsResolve(d, f.props, final, map[]);
    FeatureRoundTrip(InternProps(d, f.props).1, f.line, final.keys, NarrowedAll(final.values));
  }

  lemma {:induction false} FeaturesRoundTrip(d: Dictionaries, features: seq<SourceFeature>, final: Dictionaries)
    requires forall k | 0 <= k < |features| :: EncodableFeature(features[k])
    requires BodiesFit(d, features) && Extends(InternFeatures(d, features).0, final)
    ensures FeaturesInterned(final.values, features)
    ensures FeaturesOf(AsPayloads(InternFeatures(d, features).1), final.keys, NarrowedAll(final.values))
         == Ok(Expected(features, final.values))
    decreases |features|
  {
    if features != [] {
      var f, rest := features[0], features[1..];
      assert EncodableFeature(f);
      var d' := InternProps(d, f.props).0;
      FeaturesGrow(d', rest);
      OneFeatureRoundTrip(d, f, final);
      FeaturesRoundTrip(d', rest, final);
      ExpectedFirst(features, final.values);
      FirstBody(
        FeatureBytes(InternProps(d, f.props).1, f.line), InternFeatures(d', rest).1, final,
        ExpectedOne(f, final.values), Expected(rest, final.values));
    }
  }

  lemma {:induction false} FirstBody(
      body: Bytes, bodies: seq<Bytes>, d: Dictionaries, first: TileFeature, rest: seq<TileFeature>)
    requires FeatureOf(Payload(body), d.keys, NarrowedAll(d.values)) == Ok(first)
    requires FeaturesOf(AsPayloads(bodies), d.keys, NarrowedAll(d.values)) == Ok(rest)
    ensures FeaturesOf(AsPayloads([body] + bodies), d.keys, NarrowedAll(d.values)) == Ok([first] + rest)
  {
    assert AsPayloads([body] + bodies)[1..] == AsPayloads(bodies);
  }

  lemma {:induction false} ExpectedFirst(features: seq<SourceFeature>, values: seq<Value>)
    requires features != [] && AllInterned(values, features[0].props) && FeaturesInterned(values, features[1..])
    ensures FeaturesInterned(values, features)
    ensures Expected(features, values) == [ExpectedOne(features[0], values)] + Expected(features[1..], values)
  {
    assert forall k | 0 < k < |features| :: features[k] == features[1..][k - 1];
  }

  // ----- the layer message -----

  lemma {:induction false} LayerFieldsInParts(parts: LayerParts, a: seq<Field>, b: seq<Field>)
    requires LayerFields(parts, a).Ok?
    ensures LayerFields(parts, a + b) == LayerFields(LayerFields(parts, a).value, b)
    decreases |a|
  {
    if a == [] {
      assert a + b == b;
    } else {
      assert (a + b)[1..] == a[1..] + b;
      LayerFieldsInParts(AddToLayer(parts, a[0]).value, a[1..], b);
    }
  }

  lemma {:induction false} GatherBodies(parts: LayerParts, bodies: seq<Bytes>)
    ensures LayerFields(parts, PayloadFields(2, bodies))
         == Ok(parts.(rawFeatures := parts.rawFeatures + AsPayloads(bodies)))
    decreases |bodies|
  {
    if bodies == [] {
      assert parts.rawFeatures + [] == parts.rawFeatures;
    } else {
      assert PayloadFields(2, bodies)[1..] == PayloadFields(2, bodies[1..]);
      assert AsPayloads(bodies) == [Payload(bodies[0])] + AsPayloads(bodies[1..]);
      var raws := parts.rawFeatures + [Payload(bodies[0])];
      GatherBodies(parts.(rawFeatures := raws), bodies[1..]);
      assert raws + AsPayloads(bodies[1..]) == parts.rawFeatures + AsPayloads(bodies);
    }
  }

  lemma {:induction false} GatherKeys(parts: LayerParts, keys: seq<Bytes>)
    ensures LayerFields(parts, PayloadFields(3, keys)) == Ok(parts.(keys := parts.keys + keys))
    decreases |keys|
  {
    if keys == [] {
      assert parts.keys + [] == parts.keys;
    } else {
      assert PayloadFields(3, keys)[1..] == PayloadFields(3, keys[1..]);
      GatherKeys(parts.(keys := parts.keys + [keys[0]]), keys[1..]);
      assert (parts.keys + [keys[0]]) + keys[1..] == parts.keys + keys;
    }
  }

  function WithValues(parts: LayerParts, values: seq<Value>): LayerParts {
    parts.(values := parts.values + values)
  }

  lemma {:induction false} WithValuesTwice(parts: LayerParts, v: Value, values: seq<Value>)
    ensures WithValues(WithValues(parts, [v]), values) == WithValues(parts, [v] + values)
  {
    assert parts.values + [v] + values == parts.values + ([v] + values);
  }

  lemma {:induction false} ValueAdded(parts: LayerParts, v: Value, fields: seq<Field>)
    requires ValueFits(v)
    ensures LayerFields(parts, [Field(4, Payload(ValueBytes(v)))] + fields)
         == LayerFields(WithValues(parts, [Narrowed(v)]), fields)
  {
    ValueRoundTrip(v);
    assert ([Field(4, Payload(ValueBytes(v)))] + fields)[1..] == fields;
  }

  lemma {:induction false} FirstPayload(number: nat, payloads: seq<Bytes>)
    requires payloads != []
    ensures PayloadFields(number, payloads)
         == [Field(number, Payload(payloads[0]))] + PayloadFields(number, payloads[1..])
  {}

  lemma {:induction false} FirstNarrowed(values: seq<Value>)
    requires values != []
    ensures NarrowedAll(values) == [Narrowed(values[0])] + NarrowedAll(values[1..])
  {}

  lemma {:induction false} GatherValues(parts: LayerParts, values: seq<Value>)
    requires AllEncodable(values) && forall k | 0 <= k < |values| :: ValueFits(values[k])
    ensures LayerFields(parts, PayloadFields(4, ValuePayloads(values))) == Ok(WithValues(parts, NarrowedAll(values)))
    decreases |values|
  {
    if values == [] {
      assert WithValues(parts, NarrowedAll([])) == parts;
    } else {
      assert AllEncodable(values[1..]) && ValuePayloads(values)[1..] == ValuePayloads(values[1..]);
      FirstNarrowed(values);
      FirstPayload(4, ValuePayloads(values));
      ValueAdded(parts, values[0], PayloadFields(4, ValuePayloads(values[1..])));
      GatherValues(WithValues(parts, [Narrowed(values[0])]), values[1..]);
      WithValuesTwice(parts, Narrowed(values[0]), NarrowedAll(values[1..]));
    }
  }

  /** The message up to the values. */
  lemma {:induction false} GatherHead(name: Bytes, bodies: seq<Bytes>, keys: seq<Bytes>)
    ensures LayerFields(EMPTY_PARTS, [Field(1, Payload(name))] + PayloadFields(2, bodies) + PayloadFields(3, keys))
         == Ok(LayerParts(name, Number(DEFAULT_EXTENT), keys, [], AsPayloads(bodies)))
  {
    var one, two, three := [Field(1, Payload(name))], PayloadFields(2, bodies), PayloadFields(3, keys);
    var p1 := EMPTY_PARTS.(name := name);
    assert one[1..] == [];
    assert LayerFields(EMPTY_PARTS, one) == Ok(p1);
    GatherBodies(p1, bodies);
    assert [] + AsPayloads(bodies) == AsPayloads(bodies);
    var p2 := p1.(rawFeatures := AsPayloads(bodies));
    GatherKeys(p2, keys);
    assert [] + keys == keys;
    LayerFieldsInParts(EMPTY_PARTS, one, two);
    LayerFieldsInParts(EMPTY_PARTS, one + two, three);
  }

  lemma {:induction false} GatherMessage(name: Bytes, bodies: seq<Bytes>, d: Dictionaries)
    requires AllEncodable(d.values) && forall k | 0 <= k < |d.values| :: ValueFits(d.values[k])
    ensures LayerFields(EMPTY_PARTS, LayerMessage(name, bodies, d))
         == Ok(LayerParts(name, Number(DEFAULT_EXTENT), d.keys, NarrowedAll(d.values), AsPayloads(bodies)))
  {
    var head := [Field(1, Payload(name))] + PayloadFields(2, bodies) + PayloadFields(3, d.keys);
    var four, five := PayloadFields(4, ValuePayloads(d.values)), [Field(5, Number(DEFAULT_EXTENT))];
    var p := LayerParts(name, Number(DEFAULT_EXTENT), d.keys, [], AsPayloads(bodies));
    GatherHead(name, bodies, d.keys);
    GatherValues(p, d.values);
    assert [] + NarrowedAll(d.values) == NarrowedAll(d.values);
    LayerFieldsInParts(EMPTY_PARTS, head, four);
    LayerFieldsInParts(EMPTY_PARTS, head + four, five);
    ExtentLast(WithValues(p, NarrowedAll(d.values)));
  }

  lemma {:induction false} ExtentLast(p: LayerParts)
    requires p.extent == Number(DEFAULT_EXTENT)
    ensures LayerFields(p, [Field(5, Number(DEFAULT_EXTENT))]) == Ok(p)
  {
    assert [Field(5, Number(DEFAULT_EXTENT))][1..] == [];
  }

  // ----- layers and tiles -----

  function Interning(layer: SourceLayer): (Dictionaries, seq<Bytes>)
    requires EncodableLayer(layer)
  {
    InternFeatures(Dictionaries([], []), layer.features)
  }

  function Message(layer: SourceLayer): seq<Field>
    requires EncodableLayer(layer)
  {
    InternFeaturesEncodable(Dictionaries([], []), layer.features);
    LayerMessage(layer.name, Interning(layer).1, Interning(layer).0)
  }

  /** Every number the encoder writes for this layer, lengths included, is below 2^70. */
  predicate InVarintRange(layer: SourceLayer)
    requires EncodableLayer(layer)
  {
    && BodiesFit(Dictionaries([], []), layer.features)
    && (forall k | 0 <= k < |Interning(layer).0.values| :: ValueFits(Interning(layer).0.values[k]))
    && (forall k | 0 <= k < |Message(layer)| :: FieldFits(Message(layer)[k]))
    && |WriteFields(Message(layer))| < VARINT_LIMIT
  }

  lemma {:induction false} EverythingInterned(layer: SourceLayer)
    requires EncodableLayer(layer) && InVarintRange(layer)
    ensures FeaturesInterned(Interning(layer).0.values, layer.features)
  {
    FeaturesRoundTrip(Dictionaries([], []), layer.features, Interning(layer).0);
  }

  /** The layer that comes back. */
  function Decoded(layer: SourceLayer): TileLayer
    requires EncodableLayer(layer) && InVarintRange(layer)
  {
    EverythingInterned(layer);
    TileLayer(layer.name, Number(DEFAULT_EXTENT), Expected(layer.features, Interning(layer).0.values))
  }

  lemma {:induction false} LayerRoundTrip(layer: SourceLayer)
    requires EncodableLayer(layer) && InVarintRange(layer)
    ensures LayerOf(Payload(WriteFields(Message(layer)))) == Ok(Decoded(layer))
  {
    var (d, bodies) := Interning(layer);
    WrittenFieldsRead(Message(layer));
    GatherMessage(layer.name, bodies, d);
    FeaturesRoundTrip(Dictionaries([], []), layer.features, d);
  }

  predicate AllEncodableLayers(layers: seq<SourceLayer>) {
    forall k | 0 <= k < |layers| :: EncodableLayer(layers[k])
  }

  predicate AllWritable(layers: seq<SourceLayer>) {
    forall k | 0 <= k < |layers| :: EncodableLayer(layers[k]) && InVarintRange(layers[k])
  }

  /** A tile is its layers' bytes one after another. */
  function TileBytes(layers: seq<SourceLayer>): Bytes
    requires AllEncodableLayers(layers)
  {
    if layers == [] then [] else assert EncodableLayer(layers[0]); LayerBytes(layers[0]) + TileBytes(layers[1..])
  }

  predicate Writable(layer: SourceLayer) {
    EncodableLayer(layer) && InVarintRange(layer)
  }

  function DecodedTile(layers: seq<SourceLayer>, done: Layers): Layers
    requires AllWritable(layers)
    decreases |layers|
  {
    if layers == [] then done
    else assert Writable(layers[0]); DecodedTile(layers[1..], done[layers[0].name := Decoded(layers[0])])
  }

  function LayerField(layer: SourceLayer): Field
    requires EncodableLayer(layer)
  {
    Field(3, Payload(WriteFields(Message(layer))))
  }

  lemma {:induction false} TileFieldsWritten(layers: seq<SourceLayer>, done: Layers)
    requires AllWritable(layers)
    ensures FieldsOf(TileBytes(layers)).Ok?
    ensures TileFields(done, FieldsOf(TileBytes(layers)).value) == Ok(DecodedTile(layers, done))
    decreases |layers|
  {
    if layers != [] {
      assert Writable(layers[0]);
      var f, rest := LayerField(layers[0]), TileBytes(layers[1..]);
      ReadBytesField(3, f.value.bytes, rest);
      WalkField(LayerBytes(layers[0]), f, rest);
      LayerRoundTrip(layers[0]);
      TileFieldsWritten(layers[1..], done[layers[0].name := Decoded(layers[0])]);
      var fields := FieldsOf(TileBytes(layers)).value;
      assert fields[1..] == FieldsOf(rest).value;
    }
  }

  /** Decoding a written tile returns every layer, name, extent, feature order, pixels
      and properties, with equal values read back as the first of them, narrowed. */
  lemma {:induction false} TileRoundTrips(layers: seq<SourceLayer>)
    requires AllWritable(layers)
    ensures TileOf(TileBytes(layers)) == Ok(DecodedTile(layers, map[]))
  {
    TileFieldsWritten(layers, map[]);
  }

  // ----- exactly when nothing is lost -----

  /** The layer as written, nothing replaced. */
  function OwnProperties(props: seq<(Bytes, Option<Value>)>, done: map<Bytes, Value>): map<Bytes, Value>
    decreases |props|
  {
    if props == [] then done
    else OwnProperties(props[1..], if props[0].1.None? then done else done[props[0].0 := props[0].1.value])
  }

  function Original(layer: SourceLayer): TileLayer {
    TileLayer(layer.name, Number(DEFAULT_EXTENT),
      seq(|layer.features|, k requires 0 <= k < |layer.features| =>
        TileFeature(LineStringType, layer.features[k].line, OwnProperties(layer.features[k].props, map[]))))
  }

  predicate UsedBy(features: seq<SourceFeature>, v: Value) {
    exists i, j | 0 <= i < |features| && 0 <= j < |features[i].props| :: features[i].props[j].1 == Some(v)
  }

  /** No two different values of the layer are equal to Python. */
  ghost predicate KeptApart(layer: SourceLayer) {
    forall v, w :: UsedBy(layer.features, v) && UsedBy(layer.features, w) && PyEq(v, w) ==> v == w
  }

  predicate DistinctKeys(props: seq<(Bytes, Option<Value>)>) {
    forall a, b | 0 <= a < b < |props| :: props[a].0 != props[b].0
  }

  /** `values[key]` for the one property with that key. */
  lemma {:induction false} PropertyAt(
      props: seq<(Bytes, Option<Value>)>, values: seq<Value>, done: map<Bytes, Value>, done': map<Bytes, Value>, k: nat)
    requires AllInterned(values, props) && DistinctKeys(props) && k < |props| && props[k].1.Some?
    ensures var key := props[k].0;
            && key in Properties(props, values, done) && key in OwnProperties(props, done')
            && Properties(props, values, done)[key] == ReadBack(values, props[k].1.value)
            && OwnProperties(props, done')[key] == props[k].1.value
    decreases |props|
  {
    var rest := props[1..];
    assert forall i | 0 < i < |props| :: props[i] == rest[i - 1];
    var next := if props[0].1.None? then done else done[props[0].0 := ReadBack(values, props[0].1.value)];
    var next' := if props[0].1.None? then done' else done'[props[0].0 := props[0].1.value];
    if k > 0 {
      PropertyAt(rest, values, next, next', k - 1);
    } else {
      KeyUntouched(rest, values, next, next', props[0].0);
    }
  }

  lemma {:induction false} KeyUntouched(
      props: seq<(Bytes, Option<Value>)>, values: seq<Value>, done: map<Bytes, Value>, done': map<Bytes, Value>,
      key: Bytes)
    requires AllInterned(values, props) && key in done && key in done'
    requires forall k | 0 <= k < |props| :: props[k].0 != key
    ensures key in Properties(props, values, done) && Properties(props, values, done)[key] == done[key]
    ensures key in OwnProperties(props, done') && OwnProperties(props, done')[key] == done'[key]
    decreases |props|
  {
    if props != [] {
      var rest := props[1..];
      assert forall i | 0 < i < |props| :: props[i] == rest[i - 1];
      var next := if props[0].1.None? then done else done[props[0].0 := ReadBack(values, props[0].1.value)];
      var next' := if props[0].1.None? then done' else done'[props[0].0 := props[0].1.value];
      KeyUntouched(rest, values, next, next', key);
    }
  }

  lemma {:induction false} SamePropertiesIf(
      props: seq<(Bytes, Option<Value>)>, values: seq<Value>, done: map<Bytes, Value>)
    requires AllInterned(values, props)
    requires forall k | 0 <= k < |props| && props[k].1.Some? :: ReadBack(values, props[k].1.value) == props[k].1.value
    ensures Properties(props, values, done) == OwnProperties(props, done)
    decreases |props|
  {
    if props != [] {
      var rest := props[1..];
      assert forall i | 0 < i < |props| :: props[i] == rest[i - 1];
      SamePropertiesIf(rest, values, if props[0].1.None? then done else done[props[0].0 := props[0].1.value]);
    }
  }

  /** Interned values are used, pairwise different to Python, and complete. */
  ghost predicate Faithful(values: seq<Value>, features: seq<SourceFeature>) {
    && (forall a, b | 0 <= a < b < |values| :: !PyEq(values[a], values[b]))
    && (forall k | 0 <= k < |values| :: UsedBy(features, values[k]))
  }

  lemma {:induction false} PropsStayFaithful(
      d: Dictionaries, props: seq<(Bytes, Option<Value>)>, features: seq<SourceFeature>)
    requires Faithful(d.values, features)
    requires forall k | 0 <= k < |props| && props[k].1.Some? :: UsedBy(features, props[k].1.value)
    ensures Faithful(InternProps(d, props).0.values, features)
    decreases |props|
  {
    if props != [] {
      var d' := if props[0].1.None? then d else InternOne(d, props[0].0, props[0].1.value).0;
      PropsStayFaithful(d', props[1..], features);
    }
  }

  lemma {:induction false} FeaturesStayFaithful(d: Dictionaries, features: seq<SourceFeature>, from: nat)
    requires forall k | 0 <= k < |features| :: EncodableFeature(features[k])
    requires from <= |features| && Faithful(d.values, features)
    ensures Faithful(InternFeatures(d, features[from..]).0.values, features)
    decreases |features| - from
  {
    if from < |features| {
      var f := features[from];
      forall k | 0 <= k < |f.props| && f.props[k].1.Some?
        ensures UsedBy(features, f.props[k].1.value)
      {
        assert features[from].props[k].1 == Some(f.props[k].1.value);
      }
      PropsStayFaithful(d, f.props, features);
      assert features[from..][1..] == features[from + 1..];
      FeaturesStayFaithful(InternProps(d, f.props).0, features, from + 1);
    }
  }

  /** Every property is read back as it was. */
  predicate AllReadBack(values: seq<Value>, features: seq<SourceFeature>)
    requires FeaturesInterned(values, features)
  {
    forall i, j | 0 <= i < |features| && 0 <= j < |features[i].props| && features[i].props[j].1.Some? ::
      IsReadBack(values, features[i].props, j)
  }

  predicate IsReadBack(values: seq<Value>, props: seq<(Bytes, Option<Value>)>, j: nat)
    requires AllInterned(values, props) && j < |props| && props[j].1.Some?
  {
    ReadBack(values, props[j].1.value) == props[j].1.value
  }

  /** Every float of the layer is exactly a single. */
  ghost predicate AllSingles(layer: SourceLayer) {
    forall f :: UsedBy(layer.features, Real(f)) ==> IsSingle(f)
  }

  lemma {:induction false} UsedInterned(
      values: seq<Value>, features: seq<SourceFeature>, v: Value) returns (i: nat, j: nat)
    requires FeaturesInterned(values, features) && UsedBy(features, v)
    ensures i < |features| && j < |features[i].props| && features[i].props[j].1 == Some(v) && Interned(values, v)
  {
    i, j :| 0 <= i < |features| && 0 <= j < |features[i].props| && features[i].props[j].1 == Some(v);
    assert AllInterned(values, features[i].props);
  }

  lemma {:induction false} ReadBackApart(layer: SourceLayer, values: seq<Value>)
    requires EncodableLayer(layer) && FeaturesInterned(values, layer.features)
    requires AllReadBack(values, layer.features)
    ensures KeptApart(layer)
  {
    var features := layer.features;
    forall v, w | UsedBy(features, v) && UsedBy(features, w) && PyEq(v, w)
      ensures v == w
    {
      var i, j := UsedInterned(values, features, v);
      var i', j' := UsedInterned(values, features, w);
      assert IsReadBack(values, features[i].props, j) && IsReadBack(values, features[i'].props, j');
      SameSlot(values, v, w);
    }
  }

  lemma {:induction false} SameSlot(values: seq<Value>, v: Value, w: Value)
    requires Interned(values, v) && Interned(values, w) && PyEq(v, w)
    ensures ValueIndex(values, v) == ValueIndex(values, w)
  {
    var i, j := ValueIndex(values, v), ValueIndex(values, w);
    assert PyEq(values[i], w) && PyEq(values[j], v);
  }

  lemma {:induction false} ReadBackSingles(layer: SourceLayer, values: seq<Value>)
    requires EncodableLayer(layer) && FeaturesInterned(values, layer.features) && AllEncodable(values)
    requires AllReadBack(values, layer.features)
    ensures AllSingles(layer)
  {
    var features := layer.features;
    forall f | UsedBy(features, Real(f))
      ensures IsSingle(f)
    {
      var i, j := UsedInterned(values, features, Real(f));
      assert IsReadBack(values, features[i].props, j);
      var slot := Represented(values, Real(f));
      NarrowTwice(slot.f);
      UnchangedIff(f);
    }
  }

  lemma {:induction false} SurvivesApart(layer: SourceLayer, values: seq<Value>)
    requires EncodableLayer(layer) && FeaturesInterned(values, layer.features) && Faithful(values, layer.features)
    requires KeptApart(layer) && AllSingles(layer)
    ensures AllReadBack(values, layer.features)
  {
    var features := layer.features;
    forall i, j | 0 <= i < |features| && 0 <= j < |features[i].props| && features[i].props[j].1.Some?
      ensures IsReadBack(values, features[i].props, j)
    {
      var v := features[i].props[j].1.value;
      assert AllInterned(values, features[i].props) && UsedBy(features, v) && EncodableFeature(features[i]);
      assert Represented(values, v) == v;
      if v.Real? {
        UnchangedIff(v.f);
      }
    }
  }

  lemma {:induction false} DecodedIsOriginalIff(layer: SourceLayer)
    requires EncodableLayer(layer) && InVarintRange(layer)
    ensures FeaturesInterned(Interning(layer).0.values, layer.features)
    ensures Decoded(layer) == Original(layer) <==> AllReadBack(Interning(layer).0.values, layer.features)
  {
    EverythingInterned(layer);
    var values, features := Interning(layer).0.values, layer.features;
    if AllReadBack(values, features) {
      forall i | 0 <= i < |features|
        ensures Properties(features[i].props, values, map[]) == OwnProperties(features[i].props, map[])
      {
        forall j | 0 <= j < |features[i].props| && features[i].props[j].1.Some?
          ensures ReadBack(values, features[i].props[j].1.value) == features[i].props[j].1.value
        {
          assert IsReadBack(values, features[i].props, j);
        }
        SamePropertiesIf(features[i].props, values, map[]);
      }
      assert Decoded(layer).features == Original(layer).features;
    }
    if Decoded(layer) == Original(layer) {
      forall i, j | 0 <= i < |features| && 0 <= j < |features[i].props| && features[i].props[j].1.Some?
        ensures IsReadBack(values, features[i].props, j)
      {
        assert EncodableFeature(features[i]);
        assert Decoded(layer).features[i] == Original(layer).features[i];
        PropertyAt(features[i].props, values, map[], map[], j);
      }
    }
  }

  lemma {:induction false} InterningFaithful(layer: SourceLayer)
    requires EncodableLayer(layer)
    ensures Faithful(Interning(layer).0.values, layer.features) && AllEncodable(Interning(layer).0.values)
  {
    FeaturesStayFaithful(Dictionaries([], []), layer.features, 0);
    assert layer.features[0..] == layer.features;
    InternFeaturesEncodable(Dictionaries([], []), layer.features);
  }

  lemma {:induction false} OneLayerTile(layer: SourceLayer)
    requires Writable(layer)
    ensures TileOf(LayerBytes(layer)) == Ok(map[layer.name := Decoded(layer)])
  {
    TileRoundTrips([layer]);
    assert TileBytes([layer]) == LayerBytes(layer) + TileBytes([]);
    assert LayerBytes(layer) + [] == LayerBytes(layer);
    assert [layer][1..] == [];
    assert DecodedTile([layer], map[]) == map[layer.name := Decoded(layer)];
  }

  /** For a layer in range; `TileRange.LayerSurvivesIff` has every layer. */
  lemma {:induction false} WritableSurvivesIff(layer: SourceLayer)
    requires Writable(layer)
    ensures TileOf(LayerBytes(layer)) == Ok(map[layer.name := Original(layer)])
      <==> KeptApart(layer) && AllSingles(layer)
  {
    OneLayerTile(layer);
    DecodedIsOriginalIff(layer);
    InterningFaithful(layer);
    var values := Interning(layer).0.values;
    if AllReadBack(values, layer.features) {
      ReadBackApart(layer, values);
      ReadBackSingles(layer, values);
    }
    if KeptApart(layer) && AllSingles(layer) {
      SurvivesApart(layer, values);
    }
    assert map[layer.name := Decoded(layer)][layer.name] == Decoded(layer);
    assert map[layer.name := Original(layer)][layer.name] == Original(layer);
  }
}
