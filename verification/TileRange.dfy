/** Exactly which layers the decoder reads back: those in which every number the encoder
    writes stays below 2^70. */
module TileRange {
  import opened Wrappers
  import opened Varints
  import opened BinaryFloats
  import opened Wire
  import opened Tiles
  import opened TileFieldOrder
  import opened TileEncoder
  import opened TileRoundTrip

  // ----- packed lists and features -----

  lemma {:induction false} PackedReadsIff(vs: seq<nat>)
    ensures VarintsOf(PackVarints(vs)).Ok? <==> AllFit(vs)
    decreases |vs|
  {
    if vs != [] {
      var rest := PackVarints(vs[1..]);
      VarintRoundTrip(vs[0], rest);
      PackedReadsIff(vs[1..]);
      assert (VarintBytes(vs[0]) + rest)[|VarintBytes(vs[0])|..] == rest;
      assert AllFit(vs) <==> vs[0] < VARINT_LIMIT && AllFit(vs[1..]) by {
        assert forall k | 0 < k < |vs| :: vs[k] == vs[1..][k - 1];
      }
    }
  }

  lemma {:induction false} MessageReadsIff(tags: Bytes, commands: Bytes)
    ensures FeatureFields(FeatureParts([], Unknown, []), FeatureMessage(tags, commands)).Ok?
      <==> VarintsOf(tags).Ok? && VarintsOf(commands).Ok?
  {
    var m := FeatureMessage(tags, commands);
    assert m[1..] == [m[1], m[2]] && [m[1], m[2]][1..] == [m[2]] && [m[2]][1..] == [];
    if VarintsOf(tags).Ok? {
      var p1 := FeatureParts([] + VarintsOf(tags).value, Unknown, []);
      assert FeatureFields(FeatureParts([], Unknown, []), m) == FeatureFields(p1, [m[1], m[2]]);
      var p2 := p1.(geometryType := LineStringType);
      assert GeometryTypeOf(Number(2)) == LineStringType;
      assert FeatureFields(p1, [m[1], m[2]]) == FeatureFields(p2, [m[2]]);
      if VarintsOf(commands).Ok? {
        var p3 := p2.(commands := [] + VarintsOf(commands).value);
        assert FeatureFields(p2, [m[2]]) == FeatureFields(p3, []);
      }
    }
  }

  lemma {:induction false} FeatureReadsIff(tags: seq<nat>, line: seq<Point>, keys: seq<Bytes>, values: seq<Value>)
    requires line != [] && |FeatureBytes(tags, line)| < VARINT_LIMIT
    ensures FeatureOf(Payload(FeatureBytes(tags, line)), keys, values).Ok? <==> BodyFits(tags, line)
  {
    PackedReadsIff(tags);
    PackedReadsIff(CommandsFor(line));
    BodyFields(PackVarints(tags), PackVarints(CommandsFor(line)));
    MessageReadsIff(PackVarints(tags), PackVarints(CommandsFor(line)));
  }

  predicate AllShort(payloads: seq<Bytes>) {
    forall k | 0 <= k < |payloads| :: |payloads[k]| < VARINT_LIMIT
  }

  lemma {:induction false} FirstFeatureReads(body: Bytes, bodies: seq<Bytes>, keys: seq<Bytes>, values: seq<Value>)
    ensures FeaturesOf(AsPayloads([body] + bodies), keys, values).Ok?
      <==> FeatureOf(Payload(body), keys, values).Ok? && FeaturesOf(AsPayloads(bodies), keys, values).Ok?
  {
    assert AsPayloads([body] + bodies)[1..] == AsPayloads(bodies);
  }

  lemma {:induction false} FeaturesReadIff(
      d: Dictionaries, features: seq<SourceFeature>, keys: seq<Bytes>, values: seq<Value>)
    requires forall k | 0 <= k < |features| :: EncodableFeature(features[k])
    requires AllShort(InternFeatures(d, features).1)
    ensures FeaturesOf(AsPayloads(InternFeatures(d, features).1), keys, values).Ok? <==> BodiesFit(d, features)
    decreases |features|
  {
    if features != [] {
      var f := features[0];
      assert EncodableFeature(f);
      var (d', tags) := InternProps(d, f.props);
      var body, bodies := FeatureBytes(tags, f.line), InternFeatures(d', features[1..]).1;
      assert InternFeatures(d, features).1 == [body] + bodies;
      ShortRest(body, bodies);
      FeatureReadsIff(tags, f.line, keys, values);
      FirstFeatureReads(body, bodies, keys, values);
      FeaturesReadIff(d', features[1..], keys, values);
    }
  }

  lemma {:induction false} ShortRest(first: Bytes, rest: seq<Bytes>)
    requires AllShort([first] + rest)
    ensures |first| < VARINT_LIMIT && AllShort(rest)
  {
    assert ([first] + rest)[0] == first;
    assert forall k | 0 <= k < |rest| :: ([first] + rest)[k + 1] == rest[k];
  }

  // ----- values -----

  lemma {:induction false} NumberTooLarge(number: nat, value: nat)
    requires number * 8 < VARINT_LIMIT && value >= VARINT_LIMIT
    ensures NextField(VarintField(number, value)).Err?
  {
    var s := VarintField(number, value);
    ReadTag(number, 0, VarintBytes(value));
    assert s[|Tag(number, 0)|..] == VarintBytes(value) + [];
    VarintRoundTrip(value, []);
  }

  lemma {:induction false} ValueReadsIff(v: Value)
    requires Encodable(v) && |ValueBytes(v)| < VARINT_LIMIT
    ensures ValueOf(ValueBytes(v)).Ok? <==> ValueFits(v)
  {
    if ValueFits(v) {
      ValueRoundTrip(v);
    } else {
      assert v.Integer?;
      NumberTooLarge(4, v.i);
    }
  }

  // ----- the layer message -----

  lemma {:induction false} FirstInside(fields: seq<Field>)
    requires fields != []
    ensures |WriteFields(fields)| == |WriteField(fields[0])| + |WriteFields(fields[1..])|
  {
  }

  lemma {:induction false} FieldInside(fields: seq<Field>, k: nat)
    requires k < |fields|
    ensures |WriteField(fields[k])| <= |WriteFields(fields)|
    decreases |fields|
  {
    FirstInside(fields);
    if k > 0 {
      FieldInside(fields[1..], k - 1);
      assert fields[1..][k - 1] == fields[k];
    }
  }

  lemma {:induction false} PayloadInside(fields: seq<Field>, f: Field)
    requires f in fields && f.value.Payload?
    ensures |f.value.bytes| <= |WriteFields(fields)|
  {
    var k :| 0 <= k < |fields| && fields[k] == f;
    FieldInside(fields, k);
  }

  /** The fields of the message, whichever part they come from. */
  lemma {:induction false} MessageHolds(name: Bytes, bodies: seq<Bytes>, d: Dictionaries)
    requires AllEncodable(d.values)
    ensures forall k | 0 <= k < |bodies| :: Field(2, Payload(bodies[k])) in LayerMessage(name, bodies, d)
    ensures forall k | 0 <= k < |d.values| ::
              Field(4, Payload(ValueBytes(d.values[k]))) in LayerMessage(name, bodies, d)
  {
    forall k | 0 <= k < |bodies|
      ensures Field(2, Payload(bodies[k])) in LayerMessage(name, bodies, d)
    {
      assert PayloadFields(2, bodies)[k] in PayloadFields(2, bodies);
    }
    forall k | 0 <= k < |d.values|
      ensures Field(4, Payload(ValueBytes(d.values[k]))) in LayerMessage(name, bodies, d)
    {
      var fields := PayloadFields(4, ValuePayloads(d.values));
      assert fields[k] in fields;
    }
  }

  lemma {:induction false} MessageShapes(name: Bytes, bodies: seq<Bytes>, d: Dictionaries, f: Field)
    requires AllEncodable(d.values) && f in LayerMessage(name, bodies, d)
    ensures 1 <= f.number <= 5 && (f.value.Payload? || f == Field(5, Number(DEFAULT_EXTENT)))
    ensures f.number == 4 ==> exists k | 0 <= k < |d.values| :: f.value == Payload(ValueBytes(d.values[k]))
  {
    if f in PayloadFields(4, ValuePayloads(d.values)) {
      var k :| 0 <= k < |d.values| && PayloadFields(4, ValuePayloads(d.values))[k] == f;
    }
  }

  lemma {:induction false} MessageFits(name: Bytes, bodies: seq<Bytes>, d: Dictionaries)
    requires AllEncodable(d.values) && |WriteFields(LayerMessage(name, bodies, d))| < VARINT_LIMIT
    ensures forall f <- LayerMessage(name, bodies, d) :: FieldFits(f)
    ensures AllShort(bodies) && forall k | 0 <= k < |d.values| :: |ValueBytes(d.values[k])| < VARINT_LIMIT
  {
    var m := LayerMessage(name, bodies, d);
    MessageHolds(name, bodies, d);
    forall f <- m
      ensures FieldFits(f)
    {
      MessageShapes(name, bodies, d, f);
      if f.value.Payload? {
        PayloadInside(m, f);
      }
    }
    forall k | 0 <= k < |bodies|
      ensures |bodies[k]| < VARINT_LIMIT
    {
      PayloadInside(m, Field(2, Payload(bodies[k])));
    }
    forall k | 0 <= k < |d.values|
      ensures |ValueBytes(d.values[k])| < VARINT_LIMIT
    {
      PayloadInside(m, Field(4, Payload(ValueBytes(d.values[k]))));
    }
  }

  predicate ValuesFit(values: seq<Value>) {
    forall k | 0 <= k < |values| :: ValueFits(values[k])
  }

  lemma {:induction false} MessageReadableIff(name: Bytes, bodies: seq<Bytes>, d: Dictionaries)
    requires AllEncodable(d.values) && forall k | 0 <= k < |d.values| :: |ValueBytes(d.values[k])| < VARINT_LIMIT
    ensures AllReadable(LayerMessage(name, bodies, d)) <==> ValuesFit(d.values)
  {
    var m := LayerMessage(name, bodies, d);
    forall k | 0 <= k < |d.values|
      ensures ValueOf(ValueBytes(d.values[k])).Ok? <==> ValueFits(d.values[k])
    {
      ValueReadsIff(d.values[k]);
    }
    if ValuesFit(d.values) {
      forall k | 0 <= k < |m|
        ensures Readable(m[k])
      {
        MessageShapes(name, bodies, d, m[k]);
      }
    }
    if AllReadable(m) {
      MessageHolds(name, bodies, d);
      forall k | 0 <= k < |d.values|
        ensures ValueFits(d.values[k])
      {
        var f := Field(4, Payload(ValueBytes(d.values[k])));
        var j :| 0 <= j < |m| && m[j] == f;
        assert Readable(m[j]);
      }
    }
  }

  // ----- layers -----

  lemma {:induction false} MessageDecodesIff(name: Bytes, d: Dictionaries, features: seq<SourceFeature>)
    requires forall k | 0 <= k < |features| :: EncodableFeature(features[k])
    requires InternFeatures(Dictionaries([], []), features).0 == d && AllEncodable(d.values)
    requires var bodies := InternFeatures(Dictionaries([], []), features).1;
             |WriteFields(LayerMessage(name, bodies, d))| < VARINT_LIMIT
    ensures var bodies := InternFeatures(Dictionaries([], []), features).1;
            LayerOf(Payload(WriteFields(LayerMessage(name, bodies, d)))).Ok?
            <==> ValuesFit(d.values) && BodiesFit(Dictionaries([], []), features)
  {
    var bodies := InternFeatures(Dictionaries([], []), features).1;
    var m := LayerMessage(name, bodies, d);
    MessageFits(name, bodies, d);
    WrittenFieldsRead(m);
    MessageReadableIff(name, bodies, d);
    RaisesUnlessReadable(EMPTY_PARTS, m);
    if ValuesFit(d.values) {
      GatherMessage(name, bodies, d);
      FeaturesReadIff(Dictionaries([], []), features, d.keys, NarrowedAll(d.values));
    }
  }

  /** Of a message that is short enough only values and bodies can be out of range. */
  lemma {:induction false} MessageInRange(layer: SourceLayer)
    requires EncodableLayer(layer) && |WriteFields(Message(layer))| < VARINT_LIMIT
    ensures InVarintRange(layer)
      <==> ValuesFit(Interning(layer).0.values) && BodiesFit(Dictionaries([], []), layer.features)
  {
    var (d, bodies) := Interning(layer);
    InternFeaturesEncodable(Dictionaries([], []), layer.features);
    MessageFits(layer.name, bodies, d);
    forall k | 0 <= k < |Message(layer)|
      ensures FieldFits(Message(layer)[k])
    {
      assert Message(layer)[k] in Message(layer);
    }
  }

  lemma {:induction false} LayerReadsIff(layer: SourceLayer)
    requires EncodableLayer(layer) && |WriteFields(Message(layer))| < VARINT_LIMIT
    ensures LayerOf(Payload(WriteFields(Message(layer)))).Ok? <==> InVarintRange(layer)
  {
    InternFeaturesEncodable(Dictionaries([], []), layer.features);
    MessageDecodesIff(layer.name, Interning(layer).0, layer.features);
    MessageInRange(layer);
  }

  // ----- tiles -----

  /** A layer field at the front of a tile. */
  lemma {:induction false} FirstLayer(layer: SourceLayer, rest: Bytes)
    requires EncodableLayer(layer)
    ensures var fields := FieldsOf(LayerBytes(layer) + rest);
            if |WriteFields(Message(layer))| < VARINT_LIMIT
            then fields == Prepend(LayerField(layer), FieldsOf(rest))
            else fields.Err?
  {
    var w := WriteFields(Message(layer));
    assert LayerBytes(layer) == BytesField(3, w);
    if |w| < VARINT_LIMIT {
      ReadBytesField(3, w, rest);
      WalkField(LayerBytes(layer), LayerField(layer), rest);
    } else {
      LengthTooLarge(3, w, rest);
    }
  }

  lemma {:induction false} LengthTooLarge(number: nat, payload: Bytes, rest: Bytes)
    requires number * 8 + 2 < VARINT_LIMIT && |payload| >= VARINT_LIMIT
    ensures FieldsOf(BytesField(number, payload) + rest).Err?
  {
    var s := BytesField(number, payload) + rest;
    var body := VarintBytes(|payload|) + (payload + rest);
    assert s == Tag(number, 2) + body;
    ReadTag(number, 2, body);
    assert s[|Tag(number, 2)|..] == body;
    VarintRoundTrip(|payload|, payload + rest);
  }

  predicate Decodes(raw: Bytes, done: Layers) {
    FieldsOf(raw).Ok? && TileFields(done, FieldsOf(raw).value).Ok?
  }

  lemma {:induction false} FirstLayerIff(layer: SourceLayer, rest: Bytes, done: Layers)
    requires EncodableLayer(layer)
    ensures !InVarintRange(layer) ==> !Decodes(LayerBytes(layer) + rest, done)
    ensures InVarintRange(layer) ==>
      (Decodes(LayerBytes(layer) + rest, done) <==> Decodes(rest, done[layer.name := Decoded(layer)]))
  {
    FirstLayer(layer, rest);
    if |WriteFields(Message(layer))| < VARINT_LIMIT {
      LayerReadsIff(layer);
      FirstLayerDecodes(layer, rest, done);
      if InVarintRange(layer) {
        LayerRoundTrip(layer);
      }
    }
  }

  lemma {:induction false} TileDecodesIff(layers: seq<SourceLayer>, done: Layers)
    requires AllEncodableLayers(layers)
    ensures Decodes(TileBytes(layers), done) <==> forall k | 0 <= k < |layers| :: InVarintRange(layers[k])
    decreases |layers|
  {
    if layers != [] {
      var layer, rest := layers[0], layers[1..];
      assert EncodableLayer(layer);
      assert forall k | 0 < k < |layers| :: layers[k] == rest[k - 1];
      FirstLayerIff(layer, TileBytes(rest), done);
      if InVarintRange(layer) {
        TileDecodesIff(rest, done[layer.name := Decoded(layer)]);
      }
    }
  }

  lemma {:induction false} FirstLayerDecodes(layer: SourceLayer, rest: Bytes, done: Layers)
    requires EncodableLayer(layer) && |WriteFields(Message(layer))| < VARINT_LIMIT
    ensures var l := LayerOf(LayerField(layer).value);
            Decodes(LayerBytes(layer) + rest, done) <==> l.Ok? && Decodes(rest, done[l.value.name := l.value])
  {
    FirstLayer(layer, rest);
    if FieldsOf(rest).Ok? {
      assert ([LayerField(layer)] + FieldsOf(rest).value)[1..] == FieldsOf(rest).value;
    }
  }

  /** A written tile is read back exactly when every number written for each of its layers,
      lengths included, is below 2^70. */
  lemma {:induction false} TileReadsIff(layers: seq<SourceLayer>)
    requires AllEncodableLayers(layers)
    ensures TileOf(TileBytes(layers)).Ok? <==> forall k | 0 <= k < |layers| :: InVarintRange(layers[k])
  {
    TileDecodesIff(layers, map[]);
  }

  /** A layer survives the round trip unchanged exactly when its numbers are in range, none
      of its values are different and equal to Python at once, as 8 and 8.0 or False and 0
      are, and each of its floats is a single to begin with. */
  lemma {:induction false} LayerSurvivesIff(layer: SourceLayer)
    requires EncodableLayer(layer)
    ensures TileOf(LayerBytes(layer)) == Ok(map[layer.name := Original(layer)])
      <==> InVarintRange(layer) && KeptApart(layer) && AllSingles(layer)
  {
    OneLayerBytes(layer);
    TileReadsIff([layer]);
    if InVarintRange(layer) {
      WritableSurvivesIff(layer);
    }
  }

  lemma {:induction false} OneLayerBytes(layer: SourceLayer)
    requires EncodableLayer(layer)
    ensures TileBytes([layer]) == LayerBytes(layer)
  {
    assert [layer][1..] == [];
    assert LayerBytes(layer) + [] == LayerBytes(layer);
  }

  // ----- 0.82 -----

  /** A layer with one point and one property. */
  function OneValueLayer(v: Value): SourceLayer {
    SourceLayer([], [SourceFeature([(0, 0)], [([], Some(v))])])
  }

  lemma {:induction false} OneValueInterned(v: Value)
    requires Encodable(v)
    ensures EncodableLayer(OneValueLayer(v))
    ensures InternProps(Dictionaries([], []), OneValueLayer(v).features[0].props) == (Dictionaries([[]], [v]), [0, 0])
    ensures Interning(OneValueLayer(v)) == (Dictionaries([[]], [v]), [FeatureBytes([0, 0], [(0, 0)])])
  {
    var d: Dictionaries, empty: Bytes := Dictionaries([], []), [];
    var props := OneValueLayer(v).features[0].props;
    assert props[1..] == [] && OneValueLayer(v).features[1..] == [];
    assert !Interned([], v) && [] + [v] == [v] && [] + [empty] == [empty];
    assert InternOne(d, [], v) == (Dictionaries([[]], [v]), [0, 0]);
    assert [0, 0] + [] == [0, 0];
    assert InternProps(Dictionaries([[]], [v]), props[1..]) == (Dictionaries([[]], [v]), []);
    OneFeatureInterned(OneValueLayer(v).features, Dictionaries([[]], [v]), [0, 0]);
  }

  lemma {:induction false} OneFeatureInterned(features: seq<SourceFeature>, d: Dictionaries, tags: seq<nat>)
    requires |features| == 1 && EncodableFeature(features[0])
    requires InternProps(Dictionaries([], []), features[0].props) == (d, tags)
    ensures InternFeatures(Dictionaries([], []), features) == (d, [FeatureBytes(tags, features[0].line)])
  {
    var body := FeatureBytes(tags, features[0].line);
    assert features[1..] == [] && InternFeatures(d, []) == (d, []);
    assert [body] + [] == [body];
  }

  lemma {:induction false} ShortField(number: nat, payload: Bytes)
    requires number <= 7 && |payload| < 1000
    ensures |BytesField(number, payload)| <= 20 + |payload|
  {
    VarintLength(number * 8 + 2);
    VarintLength(|payload|);
  }

  lemma {:induction false} ShortNumber(number: nat, value: nat)
    requires number <= 7 && value < VARINT_LIMIT
    ensures |VarintField(number, value)| <= 20
  {
    VarintLength(number * 8);
    VarintLength(value);
  }

  lemma {:induction false} ShortPack(vs: seq<nat>)
    requires AllFit(vs)
    ensures |PackVarints(vs)| <= 10 * |vs|
    decreases |vs|
  {
    if vs != [] {
      VarintLength(vs[0]);
      ShortPack(vs[1..]);
    }
  }

  lemma {:induction false} OnePointFits()
    ensures BodyFits([0, 0], [(0, 0)]) && |FeatureBytes([0, 0], [(0, 0)])| <= 130
  {
    var line: seq<Point> := [(0, 0)];
    assert line[..1] == line && line[1..] == [];
    assert Deltas(line, (0, 0)) == [0, 0] + Deltas([], (0, 0));
    assert CommandsFor(line) == [9, 0, 0];
    ShortPack([0, 0]);
    ShortPack([9, 0, 0]);
    ShortField(2, PackVarints([0, 0]));
    ShortNumber(3, 2);
    ShortField(4, PackVarints([9, 0, 0]));
  }

  lemma {:induction false} ShortMessage(body: Bytes, f: PyFloat)
    requires |body| <= 130 && FitsSingle(f)
    ensures |WriteFields(LayerMessage([], [body], Dictionaries([[]], [Real(f)])))| < 1000
  {
    var d := Dictionaries([[]], [Real(f)]);
    MessageBytes([], [body], d);
    OnePayload(2, body);
    OnePayload(3, []);
    VarintLength(2 * 8 + 5);
    assert ValuePayloads([Real(f)]) == [ValueBytes(Real(f))];
    OnePayload(4, ValueBytes(Real(f)));
    ShortField(1, []);
    ShortNumber(5, DEFAULT_EXTENT);
  }

  lemma {:induction false} OnePayload(number: nat, payload: Bytes)
    requires number <= 7 && |payload| < 1000
    ensures |WriteFields(PayloadFields(number, [payload]))| <= 20 + |payload|
  {
    assert PayloadFields(number, [payload]) == [] + [Field(number, Payload(payload))];
    WriteOneMore([], Field(number, Payload(payload)));
    ShortField(number, payload);
  }

  /** A layer with one float is in range, whichever float it is. */
  lemma {:induction false} OneFloatInRange(f: PyFloat)
    requires FitsSingle(f)
    ensures EncodableLayer(OneValueLayer(Real(f))) && InVarintRange(OneValueLayer(Real(f)))
  {
    var layer := OneValueLayer(Real(f));
    OneValueInterned(Real(f));
    OnePointFits();
    ShortMessage(FeatureBytes([0, 0], [(0, 0)]), f);
    OneBodyFits(layer.features, Dictionaries([[]], [Real(f)]), [0, 0]);
    MessageInRange(layer);
  }

  lemma {:induction false} OneBodyFits(features: seq<SourceFeature>, d: Dictionaries, tags: seq<nat>)
    requires |features| == 1 && EncodableFeature(features[0]) && BodyFits(tags, features[0].line)
    requires InternProps(Dictionaries([], []), features[0].props) == (d, tags)
    ensures BodiesFit(Dictionaries([], []), features)
  {
    assert features[1..] == [];
  }

  /** The layer that holds 0.82 alone is read back, has no other value to be confused with,
      and still comes back changed. */
  lemma {:induction false} PointEightTwoDoesNotSurvive()
    ensures var layer := OneValueLayer(Real(POINT_EIGHT_TWO));
            && EncodableLayer(layer) && KeptApart(layer)
            && TileOf(LayerBytes(layer)).Ok?
            && TileOf(LayerBytes(layer)) != Ok(map[layer.name := Original(layer)])
  {
    var layer := OneValueLayer(Real(POINT_EIGHT_TWO));
    PointEightTwoIsNarrowed();
    OneFloatInRange(POINT_EIGHT_TWO);
    OneLayerBytes(layer);
    TileReadsIff([layer]);
    LayerSurvivesIff(layer);
    UnchangedIff(POINT_EIGHT_TWO);
    assert layer.features[0].props[0].1 == Some(Real(POINT_EIGHT_TWO));
    assert UsedBy(layer.features, Real(POINT_EIGHT_TWO));
  }
}
